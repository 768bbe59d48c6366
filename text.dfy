/**
 * String helpers with the semantics of the Rust `str` methods the backend
 * uses: `find` of one character, `trim`, `split(",")`, and the
 * `chars().next()` / `chars().next_back()` pair that drops the first and
 * the last character.
 */
module Text {
  import opened Wrappers

  /** Index of the first occurrence of `c` in `s` (Rust `str::find`). */
  function Find(s: string, c: char): (r: Option<nat>)
    ensures r.None? <==> c !in s
    ensures r.Some? ==> r.value < |s| && s[r.value] == c && c !in s[..r.value]
  {
    if |s| == 0 then None
    else if s[0] == c then Some(0)
    else
      match Find(s[1..], c)
      case None => None
      case Some(i) => assert s[1..][..i] == s[1..i + 1]; Some(i + 1)
  }

  /** The Unicode `White_Space` property, which Rust's `trim` strips. */
  predicate IsWhitespace(c: char) {
    ('\t' <= c <= '\r') || c == ' ' || c == '\U{0085}' || c == '\U{00A0}' || c == '\U{1680}'
    || ('\U{2000}' <= c <= '\U{200A}') || c == '\U{2028}' || c == '\U{2029}'
    || c == '\U{202F}' || c == '\U{205F}' || c == '\U{3000}'
  }

  /** `s` without its leading white space. */
  function TrimStart(s: string): (r: string)
    ensures |r| <= |s| && r == s[|s| - |r|..]
    ensures r == [] || !IsWhitespace(r[0])
    ensures forall i :: 0 <= i < |s| - |r| ==> IsWhitespace(s[i])
  {
    if |s| > 0 && IsWhitespace(s[0]) then TrimStart(s[1..]) else s
  }

  /** `s` without its trailing white space. */
  function TrimEnd(s: string): (r: string)
    ensures |r| <= |s| && r == s[..|r|]
    ensures r == [] || !IsWhitespace(r[|r| - 1])
    ensures forall i :: |r| <= i < |s| ==> IsWhitespace(s[i])
  {
    if |s| > 0 && IsWhitespace(s[|s| - 1]) then TrimEnd(s[..|s| - 1]) else s
  }

  /** Rust `str::trim`: neither end of the result is white space. */
  function Trim(s: string): (r: string)
    ensures r == [] || (!IsWhitespace(r[0]) && !IsWhitespace(r[|r| - 1]))
  {
    var t := TrimStart(s);
    var r := TrimEnd(t);
    assert r != [] ==> r[0] == t[0];
    r
  }

  /**
   * The trimmed text sits in `s` right after the leading white space
   * (`lead` characters), with only white space after it.
   */
  lemma TrimSlice(s: string)
    ensures var r := Trim(s); var lead := |s| - |TrimStart(s)|;
      && lead + |r| <= |s| && r == s[lead..lead + |r|]
      && (forall i :: 0 <= i < lead ==> IsWhitespace(s[i]))
      && (forall i :: lead + |r| <= i < |s| ==> IsWhitespace(s[i]))
  {
    var t := TrimStart(s);
    var r := TrimEnd(t);
    var lead := |s| - |t|;
    assert t == s[lead..];
    assert r == t[..|r|];
    TrimmedTail(s, t, r);
  }

  /** Trimming leaves nothing exactly when `s` is all white space. */
  lemma TrimEmpty(s: string)
    ensures Trim(s) == [] <==> forall i :: 0 <= i < |s| ==> IsWhitespace(s[i])
  {
    TrimSlice(s);
  }

  /** What `TrimEnd` drops from the tail of `t == s[lead..]` is white space of `s`. */
  lemma TrimmedTail(s: string, t: string, r: string)
    requires |t| <= |s| && t == s[|s| - |t|..]
    requires r == TrimEnd(t)
    ensures forall i :: |s| - |t| + |r| <= i < |s| ==> IsWhitespace(s[i])
  {
    var lead := |s| - |t|;
    forall i | lead + |r| <= i < |s|
      ensures IsWhitespace(s[i])
    {
      assert IsWhitespace(t[i - lead]);
    }
  }

  /** Text that neither starts nor ends with white space is its own trim. */
  lemma TrimKeepsTrimmed(s: string)
    requires |s| > 0 && !IsWhitespace(s[0]) && !IsWhitespace(s[|s| - 1])
    ensures Trim(s) == s
  {
  }

  /** The text between the first and the last character; empty when there are fewer than two. */
  function Inner(s: string): (r: string)
    ensures |s| >= 2 ==> s == [s[0]] + r + [s[|s| - 1]]
    ensures |s| < 2 ==> r == []
  {
    if |s| >= 2 then s[1..|s| - 1] else []
  }

  /** Rust `str::split` on a single-character separator: always at least one token. */
  function Split(s: string, sep: char): (r: seq<string>)
    ensures |r| >= 1
    ensures forall i :: 0 <= i < |r| ==> sep !in r[i]
    ensures Join(r, sep) == s
    decreases |s|
  {
    match Find(s, sep)
    case None => [s]
    case Some(i) =>
      var rest := Split(s[i + 1..], sep);
      var r := [s[..i]] + rest;
      assert r[1..] == rest;
      r
  }

  /** The tokens glued back together with `sep` between neighbours. */
  function Join(tokens: seq<string>, sep: char): string
    requires |tokens| >= 1
  {
    if |tokens| == 1 then tokens[0] else tokens[0] + [sep] + Join(tokens[1..], sep)
  }

  /** Splitting a join of separator-free tokens gives the tokens back. */
  lemma {:induction false} SplitJoin(tokens: seq<string>, sep: char)
    requires |tokens| >= 1
    requires forall i :: 0 <= i < |tokens| ==> sep !in tokens[i]
    ensures Split(Join(tokens, sep), sep) == tokens
  {
    var s := Join(tokens, sep);
    if |tokens| == 1 {
      assert Find(s, sep).None?;
    } else {
      var head := tokens[0];
      var tail := Join(tokens[1..], sep);
      assert s == head + [sep] + tail;
      FindAfterPrefix(head, sep, tail);
      assert s[..|head|] == head;
      assert s[|head| + 1..] == tail;
      SplitJoin(tokens[1..], sep);
      assert tokens == [head] + tokens[1..];
    }
  }

  /** In `p + [c] + t` with `c` not in `p`, the first `c` is right after `p`. */
  lemma {:induction false} FindAfterPrefix(p: string, c: char, t: string)
    requires c !in p
    ensures Find(p + [c] + t, c) == Some(|p|)
  {
    var s := p + [c] + t;
    if |p| > 0 {
      assert s[1..] == p[1..] + [c] + t;
      FindAfterPrefix(p[1..], c, t);
    }
  }
}
