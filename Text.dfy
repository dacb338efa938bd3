/**
 * String helpers the request encoder relies on: Python's `str.strip()`,
 * `" ".join(...)` and `str.split(" ")`, over `seq<char>`.
 */
module Text {

  /** Python's `str.isspace()` for one code point. */
  predicate IsSpace(c: char)
  {
    ('\U{9}' <= c <= '\U{D}') || ('\U{1C}' <= c <= '\U{20}') ||
    c == '\U{85}' || c == '\U{A0}' || c == '\U{1680}' ||
    ('\U{2000}' <= c <= '\U{200A}') || c == '\U{2028}' || c == '\U{2029}' ||
    c == '\U{202F}' || c == '\U{205F}' || c == '\U{3000}'
  }

  /** `str.lstrip()`: drops the leading whitespace. */
  function StripLeft(s: string): string
    decreases |s|
  {
    if s != [] && IsSpace(s[0]) then StripLeft(s[1..]) else s
  }

  /** `str.rstrip()`: drops the trailing whitespace. */
  function StripRight(s: string): string
    decreases |s|
  {
    if s != [] && IsSpace(s[|s| - 1]) then StripRight(s[..|s| - 1]) else s
  }

  /** `str.strip()`. */
  function Strip(s: string): string
  {
    StripRight(StripLeft(s))
  }

  /** `lstrip` keeps a suffix, everything it drops is whitespace, and what
      it keeps does not start with whitespace. */
  lemma {:induction false} StripLeftSpec(s: string)
    ensures var r := StripLeft(s);
      && |r| <= |s| && r == s[|s| - |r|..]
      && (forall k :: 0 <= k < |s| - |r| ==> IsSpace(s[k]))
      && (r != [] ==> !IsSpace(r[0]))
    decreases |s|
  {
    if s != [] && IsSpace(s[0]) {
      StripLeftSpec(s[1..]);
    }
  }

  /** `rstrip` keeps a prefix, everything it drops is whitespace, and what
      it keeps does not end with whitespace. */
  lemma {:induction false} StripRightSpec(s: string)
    ensures var r := StripRight(s);
      && |r| <= |s| && r == s[..|r|]
      && (forall k :: |r| <= k < |s| ==> IsSpace(s[k]))
      && (r != [] ==> !IsSpace(r[|r| - 1]))
    decreases |s|
  {
    if s != [] && IsSpace(s[|s| - 1]) {
      StripRightSpec(s[..|s| - 1]);
    }
  }

  /** `strip()` keeps an infix of `s` that neither starts nor ends with
      whitespace, and everything it cuts away on either side is whitespace. */
  lemma StripSpec(s: string)
    ensures var r, a := Strip(s), |s| - |StripLeft(s)|;
      && 0 <= a && a + |r| <= |s| && r == s[a..a + |r|]
      && (forall k :: 0 <= k < a ==> IsSpace(s[k]))
      && (forall k :: a + |r| <= k < |s| ==> IsSpace(s[k]))
      && (r != [] ==> !IsSpace(r[0]) && !IsSpace(r[|r| - 1]))
  {
    StripLeftSpec(s);
    StripRightSpec(StripLeft(s));
  }

  /** Neither starts nor ends with whitespace. */
  predicate Stripped(s: string)
  {
    s != [] ==> !IsSpace(s[0]) && !IsSpace(s[|s| - 1])
  }

  /** A string that neither starts nor ends with whitespace is left as it
      is, and only such a string is. */
  lemma StripUnchanged(s: string)
    ensures Strip(s) == s <==> Stripped(s)
  {
    StripSpec(s);
    if Stripped(s) {
      assert StripLeft(s) == s;
      assert StripRight(s) == s;
    }
  }

  predicate NoSpace(s: string)
  {
    forall k :: 0 <= k < |s| ==> s[k] != ' '
  }

  /** Python's `" ".join(parts)`. */
  function JoinSpace(parts: seq<string>): string
  {
    if |parts| == 0 then ""
    else if |parts| == 1 then parts[0]
    else parts[0] + " " + JoinSpace(parts[1..])
  }

  /** Python's `s.split(" ")`: the empty string splits into one empty field. */
  function SplitSpace(s: string): (r: seq<string>)
    ensures |r| >= 1
    decreases |s|
  {
    if s == [] then [""]
    else if s[0] == ' ' then [""] + SplitSpace(s[1..])
    else
      var rest := SplitSpace(s[1..]);
      [[s[0]] + rest[0]] + rest[1..]
  }

  /** A space-free prefix glues onto the first field of what follows it. */
  lemma {:induction false} SplitPrefix(t: string, u: string)
    requires NoSpace(t)
    ensures SplitSpace(t + u) == [t + SplitSpace(u)[0]] + SplitSpace(u)[1..]
    decreases |t|
  {
    if t == [] {
      assert t + u == u;
      assert t + SplitSpace(u)[0] == SplitSpace(u)[0];
      assert [SplitSpace(u)[0]] + SplitSpace(u)[1..] == SplitSpace(u);
    } else {
      assert (t + u)[0] == t[0];
      assert (t + u)[1..] == t[1..] + u;
      SplitPrefix(t[1..], u);
      assert [t[0]] + (t[1..] + SplitSpace(u)[0]) == t + SplitSpace(u)[0];
    }
  }

  /** Splitting undoes joining, as long as no part contains a space. */
  lemma {:induction false} SplitJoin(parts: seq<string>)
    requires |parts| >= 1
    requires forall i :: 0 <= i < |parts| ==> NoSpace(parts[i])
    ensures SplitSpace(JoinSpace(parts)) == parts
    decreases |parts|
  {
    if |parts| == 1 {
      SplitPrefix(parts[0], "");
      assert parts[0] + "" == parts[0];
    } else {
      var rest := JoinSpace(parts[1..]);
      assert parts[0] + " " + rest == parts[0] + (" " + rest);
      SplitPrefix(parts[0], " " + rest);
      assert (" " + rest)[0] == ' ' && (" " + rest)[1..] == rest;
      assert SplitSpace(" " + rest) == [""] + SplitSpace(rest);
      SplitJoin(parts[1..]);
      assert SplitSpace(" " + rest)[0] == "" && SplitSpace(" " + rest)[1..] == parts[1..];
      assert parts[0] + "" == parts[0];
      assert parts == [parts[0]] + parts[1..];
    }
  }

  /** Joining a non-empty list of non-empty parts gives a string that starts
      with the first part's first character and ends with the last part's
      last character. */
  lemma {:induction false} JoinSpaceEnds(parts: seq<string>)
    requires |parts| >= 1
    requires forall i :: 0 <= i < |parts| ==> parts[i] != []
    ensures JoinSpace(parts) != []
    ensures JoinSpace(parts)[0] == parts[0][0]
    ensures JoinSpace(parts)[|JoinSpace(parts)| - 1] == parts[|parts| - 1][|parts[|parts| - 1]| - 1]
    decreases |parts|
  {
    if |parts| > 1 {
      JoinSpaceEnds(parts[1..]);
    }
  }
}
