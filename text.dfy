/** The few `str` operations of Rust's standard library the launcher relies on
    (`trim`, `trim_start`, `starts_with`, the search behind `split_once`),
    over strings as sequences of Unicode scalar values. */
module Text {
  import opened Wrappers

  /** Rust's `char::is_whitespace`: the Unicode `White_Space` property. */
  predicate IsWhitespace(c: char) {
    ('\t' <= c <= '\r') || c == ' ' || c == '\U{0085}' || c == '\U{00A0}' || c == '\U{1680}'
    || ('\U{2000}' <= c <= '\U{200A}') || c == '\U{2028}' || c == '\U{2029}'
    || c == '\U{202F}' || c == '\U{205F}' || c == '\U{3000}'
  }

  predicate StartsWith(s: string, prefix: string) {
    |prefix| <= |s| && s[..|prefix|] == prefix
  }

  /** `str::trim_start`: drops the leading whitespace and nothing else. */
  function TrimStart(s: string): (r: string)
    ensures |r| <= |s| && r == s[|s| - |r|..]
    ensures forall i | 0 <= i < |s| - |r| :: IsWhitespace(s[i])
    ensures r == [] || !IsWhitespace(r[0])
  {
    if s != [] && IsWhitespace(s[0]) then TrimStart(s[1..]) else s
  }

  /** `str::trim_end`: drops the trailing whitespace and nothing else. */
  function TrimEnd(s: string): (r: string)
    ensures |r| <= |s| && r == s[..|r|]
    ensures forall i | |r| <= i < |s| :: IsWhitespace(s[i])
    ensures r == [] || !IsWhitespace(r[|r| - 1])
  {
    if s != [] && IsWhitespace(s[|s| - 1]) then TrimEnd(s[..|s| - 1]) else s
  }

  /** `str::trim`: a slice of `s` that neither starts nor ends with whitespace. */
  function Trim(s: string): (r: string)
    ensures |r| <= |s|
    ensures r == [] || (!IsWhitespace(r[0]) && !IsWhitespace(r[|r| - 1]))
  {
    TrimEnd(TrimStart(s))
  }

  /** A string already free of surrounding whitespace is its own trim. */
  lemma TrimOfTrimmed(s: string)
    requires s == [] || (!IsWhitespace(s[0]) && !IsWhitespace(s[|s| - 1]))
    ensures Trim(s) == s
  {
  }

  /** Every character of `w` is whitespace. */
  predicate AllWhitespace(w: string) {
    forall i | 0 <= i < |w| :: IsWhitespace(w[i])
  }

  /** `trim_start` drops exactly the whitespace in front of text that does
      not start with whitespace. */
  lemma {:induction false} TrimStartPadded(w: string, x: string)
    requires AllWhitespace(w) && (x == [] || !IsWhitespace(x[0]))
    ensures TrimStart(w + x) == x
    decreases |w|
  {
    if w == [] {
      assert w + x == x;
    } else {
      assert (w + x)[1..] == w[1..] + x;
      TrimStartPadded(w[1..], x);
    }
  }

  /** `trim_end` drops exactly the whitespace after text that does not end
      with whitespace. */
  lemma {:induction false} TrimEndPadded(x: string, w: string)
    requires AllWhitespace(w) && (x == [] || !IsWhitespace(x[|x| - 1]))
    ensures TrimEnd(x + w) == x
    decreases |w|
  {
    if w == [] {
      assert x + w == x;
    } else {
      var front := w[..|w| - 1];
      assert (x + w)[..|x + w| - 1] == x + front;
      TrimEndPadded(x, front);
    }
  }

  /** Whitespace alone trims to nothing. */
  lemma TrimStartBlank(w: string)
    requires AllWhitespace(w)
    ensures TrimStart(w) == []
  {
  }

  /** Two runs of whitespace make one. */
  lemma BlankAppend(w1: string, w2: string)
    requires AllWhitespace(w1) && AllWhitespace(w2)
    ensures AllWhitespace(w1 + w2)
  {
    forall i | 0 <= i < |w1 + w2| ensures IsWhitespace((w1 + w2)[i]) {
      if i < |w1| {
        assert (w1 + w2)[i] == w1[i];
      } else {
        assert (w1 + w2)[i] == w2[i - |w1|];
      }
    }
  }

  /** `trim` gives back text that is its own trim from between any two runs
      of whitespace. */
  lemma TrimPadded(w1: string, x: string, w2: string)
    requires AllWhitespace(w1) && AllWhitespace(w2) && Trim(x) == x
    ensures Trim(w1 + x + w2) == x
  {
    if x == [] {
      TrimBlanks(w1, w2);
      assert w1 + x + w2 == w1 + w2;
    } else {
      TrimAround(w1, x, w2);
    }
  }

  /** Two runs of whitespace trim to nothing. */
  lemma TrimBlanks(w1: string, w2: string)
    requires AllWhitespace(w1) && AllWhitespace(w2)
    ensures Trim(w1 + w2) == []
  {
    BlankAppend(w1, w2);
    TrimStartBlank(w1 + w2);
  }

  /** Text that neither starts nor ends with whitespace is what `trim`
      leaves of it between two runs of whitespace. */
  lemma TrimAround(w1: string, x: string, w2: string)
    requires AllWhitespace(w1) && AllWhitespace(w2)
    requires x != [] && !IsWhitespace(x[0]) && !IsWhitespace(x[|x| - 1])
    ensures Trim(w1 + x + w2) == x
  {
    var right := x + w2;
    assert w1 + x + w2 == w1 + right;
    assert right[0] == x[0];
    TrimStartPadded(w1, right);
    TrimEndPadded(x, w2);
  }

  /** The index of the first occurrence of `c` in `s`, as `str::find` on a
      single character gives it. */
  function Find(s: string, c: char): (r: Option<nat>)
    ensures r.None? <==> c !in s
    ensures r.Some? ==> r.value < |s| && s[r.value] == c && c !in s[..r.value]
  {
    if s == [] then None
    else if s[0] == c then Some(0)
    else
      match Find(s[1..], c)
      case None => None
      case Some(i) =>
        assert s[..i + 1] == [s[0]] + s[1..][..i];
        Some(i + 1)
  }
}
