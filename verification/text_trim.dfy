/**
 The string trimming that `addTodo` applies to the text typed by the user
 (`text.trim()`). ECMAScript's `trim` removes, from both ends, every code
 unit that is WhiteSpace or a LineTerminator; both sets are spelled out in
 `IsWhitespace`.
 */
module TextTrim {

  /** WhiteSpace and LineTerminator code points as ECMAScript's `trim` knows them. */
  predicate IsWhitespace(c: char)
  {
    c == '\t' || c == '\n' || c == '\U{000B}' || c == '\U{000C}' || c == '\r' || c == ' '
    || c == '\U{00A0}' || c == '\U{1680}' || ('\U{2000}' <= c <= '\U{200A}')
    || c == '\U{2028}' || c == '\U{2029}' || c == '\U{202F}' || c == '\U{205F}'
    || c == '\U{3000}' || c == '\U{FEFF}'
  }

  /** True when `s` holds whitespace only (the empty string included). */
  predicate IsBlank(s: string)
  {
    forall k | 0 <= k < |s| :: IsWhitespace(s[k])
  }

  /** `s` without its leading whitespace: a suffix of `s` whose dropped prefix is blank. */
  function TrimStart(s: string): (r: string)
    ensures |r| <= |s| && r == s[|s| - |r|..]
    ensures forall k | 0 <= k < |s| - |r| :: IsWhitespace(s[k])
    ensures r != [] ==> !IsWhitespace(r[0])
  {
    if s != [] && IsWhitespace(s[0]) then TrimStart(s[1..]) else s
  }

  /** `s` without its trailing whitespace: a prefix of `s` whose dropped suffix is blank. */
  function TrimEnd(s: string): (r: string)
    ensures |r| <= |s| && r == s[..|r|]
    ensures forall k | |r| <= k < |s| :: IsWhitespace(s[k])
    ensures r != [] ==> !IsWhitespace(r[|r| - 1])
  {
    if s != [] && IsWhitespace(s[|s| - 1]) then TrimEnd(s[..|s| - 1]) else s
  }

  /**
   `s.trim()`: the part of `s` between its leading and its trailing
   whitespace. It neither starts nor ends with whitespace, and it is empty
   exactly when `s` is blank; `TrimIsSlice` shows that it is a slice of `s`
   with only whitespace cut away.
   */
  function Trim(s: string): (r: string)
    ensures r != [] ==> !IsWhitespace(r[0]) && !IsWhitespace(r[|r| - 1])
    ensures r == [] <==> IsBlank(s)
  {
    TrimSlice(s);
    TrimEnd(TrimStart(s))
  }

  /** The facts behind `Trim`, with the index where the kept slice starts. */
  lemma TrimSlice(s: string)
    ensures var t := TrimStart(s); var r := TrimEnd(t); var i := |s| - |t|;
            r == s[i..][..|r|]
            && (forall k | 0 <= k < |s| && !(i <= k < i + |r|) :: IsWhitespace(s[k]))
            && (r != [] ==> !IsWhitespace(r[0]) && !IsWhitespace(r[|r| - 1]))
            && (r == [] <==> IsBlank(s))
  {
    var t := TrimStart(s);
    var r := TrimEnd(t);
    var i := |s| - |t|;
    assert forall k | i + |r| <= k < |s| :: s[k] == t[k - i];
    if r != [] {
      assert s[i] == r[0];
    }
  }

  /** `Trim(s)` is a slice of `s` and everything cut away on either side is whitespace. */
  lemma TrimIsSlice(s: string)
    ensures exists i :: 0 <= i <= |s| - |Trim(s)| && Trim(s) == s[i..][..|Trim(s)|]
                        && forall k | 0 <= k < |s| && !(i <= k < i + |Trim(s)|) :: IsWhitespace(s[k])
  {
    TrimSlice(s);
    var i := |s| - |TrimStart(s)|;
    assert Trim(s) == s[i..][..|Trim(s)|];
  }

  /** Trimming a trimmed string changes nothing. */
  lemma TrimIdempotent(s: string)
    ensures Trim(Trim(s)) == Trim(s)
  {
    var r := Trim(s);
    if r != [] {
      assert TrimStart(r) == r;
      assert TrimEnd(r) == r;
    }
  }
}
