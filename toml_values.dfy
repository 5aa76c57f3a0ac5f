/** The three one-line readers the manifest scanner uses: a quoted string
    value, a boolean value, and the test whether a `[[bin]]` path names the
    crate's main source file. They read a single trimmed line of the
    manifest; none of them is a TOML parser. */
module TomlValues {
  import opened Wrappers
  import opened Text

  const Quote: char := '"'
  const Backslash: char := '\\'
  const Hash: char := '#'
  const Equals: char := '='

  // ---------------------------------------------------------------------
  // `split_once('=')`

  /** `str::split_once(c)`: the text before the first `c` and the text after
      it, or nothing when `c` does not occur. */
  function SplitOnce(s: string, c: char): (r: Option<(string, string)>)
    ensures r.None? <==> c !in s
    ensures r.Some? ==> r.value.0 + [c] + r.value.1 == s && c !in r.value.0
  {
    match Find(s, c)
    case None => None
    case Some(i) =>
      assert s[..i] + [c] + s[i + 1..] == s;
      Some((s[..i], s[i + 1..]))
  }

  /** The first `c` of a line built around a `c` is that one. */
  lemma {:induction false} FindAfter(k: string, c: char, v: string)
    requires c !in k
    ensures Find(k + [c] + v, c) == Some(|k|)
    decreases |k|
  {
    var s := k + [c] + v;
    if k != [] {
      assert s[0] == k[0];
      assert s[1..] == k[1..] + [c] + v;
      FindAfter(k[1..], c, v);
    }
  }

  /** Splitting a line built around its first `c` gives the two parts back. */
  lemma SplitOnceJoin(k: string, c: char, v: string)
    requires c !in k
    ensures SplitOnce(k + [c] + v, c) == Some((k, v))
  {
    var s := k + [c] + v;
    FindAfter(k, c, v);
    assert s[..|k|] == k;
    assert s[|k| + 1..] == v;
  }

  // ---------------------------------------------------------------------
  // Quoted strings: `parse_toml_string_value`

  /** The character loop of `parse_toml_string_value` over the text after the
      opening quote: `parsed` is what was read so far and `escaped` whether
      the previous character was an unconsumed backslash. A backslash is
      dropped and the character after it kept as it is (so `\n` reads as
      `n`); the first quote not so escaped ends the value; running out of
      text first gives nothing. */
  function ReadQuoted(parsed: string, escaped: bool, s: string): (r: Option<string>)
    ensures r.Some? ==> Quote in s
    ensures r.Some? ==> |parsed| <= |r.value| < |parsed| + |s| && r.value[..|parsed|] == parsed
    decreases |s|
  {
    if s == [] then None
    else if escaped then ReadQuoted(parsed + [s[0]], false, s[1..])
    else if s[0] == Backslash then ReadQuoted(parsed, true, s[1..])
    else if s[0] == Quote then Some(parsed)
    else ReadQuoted(parsed + [s[0]], false, s[1..])
  }

  /** The value of a quoted string, given the text after its opening quote. */
  function Unquote(s: string): Option<string> {
    ReadQuoted([], false, s)
  }

  /** `parse_toml_string_value(line, key)`. */
  function StringValue(line: string, key: string): Option<string> {
    match SplitOnce(line, Equals)
    case None => None
    case Some((rawKey, rawValue)) =>
      if Trim(rawKey) != key then None
      else
        var value := TrimStart(rawValue);
        if !StartsWith(value, [Quote]) then None
        else Unquote(value[1..])
  }

  /** A value is read only from a line with an `=` whose left side, trimmed,
      is the key and whose right side, left-trimmed, opens with a quote; it
      is then what the quoted text reads as. */
  lemma StringValueShape(line: string, key: string)
    ensures StringValue(line, key).Some? ==>
      SplitOnce(line, Equals).Some?
      && Trim(SplitOnce(line, Equals).value.0) == key
      && StartsWith(TrimStart(SplitOnce(line, Equals).value.1), [Quote])
      && StringValue(line, key) == Unquote(TrimStart(SplitOnce(line, Equals).value.1)[1..])
  {
  }

  /** `parse_toml_string_value`: split at the first `=`, match the key,
      require an opening quote, then read the quoted text. */
  method ParseTomlStringValue(line: string, key: string) returns (r: Option<string>)
    ensures r == StringValue(line, key)
  {
    var split := SplitOnce(line, Equals);
    if split.None? {
      return None;
    }
    var (rawKey, rawValue) := split.value;
    if Trim(rawKey) != key {
      return None;
    }
    var value := TrimStart(rawValue);
    if !StartsWith(value, [Quote]) {
      return None;
    }
    r := ReadQuotedChars(value[1..]);
  }

  /** The character loop of `parse_toml_string_value` with its `escaped`
      flag, over the text after the opening quote. */
  method ReadQuotedChars(chars: string) returns (r: Option<string>)
    ensures r == Unquote(chars)
  {
    var parsed := "";
    var escaped := false;
    var i := 0;
    while i < |chars|
      invariant 0 <= i <= |chars|
      invariant ReadQuoted(parsed, escaped, chars[i..]) == Unquote(chars)
    {
      var ch := chars[i];
      ReadQuotedAt(parsed, escaped, chars, i);
      if escaped {
        parsed := parsed + [ch];
        escaped := false;
        i := i + 1;
        continue;
      }
      if ch == Backslash {
        escaped := true;
      } else if ch == Quote {
        return Some(parsed);
      } else {
        parsed := parsed + [ch];
      }
      i := i + 1;
    }
    return None;
  }

  /** The reader on the text from index `i` on, by the character there. */
  lemma ReadQuotedAt(parsed: string, escaped: bool, chars: string, i: nat)
    requires i < |chars|
    ensures ReadQuoted(parsed, escaped, chars[i..]) ==
      if escaped then ReadQuoted(parsed + [chars[i]], false, chars[i + 1..])
      else if chars[i] == Backslash then ReadQuoted(parsed, true, chars[i + 1..])
      else if chars[i] == Quote then Some(parsed)
      else ReadQuoted(parsed + [chars[i]], false, chars[i + 1..])
  {
    assert chars[i..][0] == chars[i] && chars[i..][1..] == chars[i + 1..];
  }

  /** A backslash is dropped and the character after it, a quote or a
      backslash included, is kept as it is. */
  lemma EscapeKeepsNext(parsed: string, c: char, s: string)
    ensures ReadQuoted(parsed, false, [Backslash, c] + s) == ReadQuoted(parsed + [c], false, s)
  {
    assert ([Backslash, c] + s)[1..] == [c] + s;
    assert ([c] + s)[1..] == s;
  }

  /** Any other character but a quote is kept. */
  lemma PlainKept(parsed: string, c: char, s: string)
    requires c != Backslash && c != Quote
    ensures ReadQuoted(parsed, false, [c] + s) == ReadQuoted(parsed + [c], false, s)
  {
    assert ([c] + s)[1..] == s;
  }

  /** A trailing backslash leaves the value unclosed. */
  lemma TrailingBackslash(parsed: string)
    ensures ReadQuoted(parsed, false, [Backslash]) == None
  {
    assert [Backslash][1..] == [];
  }

  /** Text with no quote character in it never closes the value. */
  lemma NoQuoteNoValue(parsed: string, escaped: bool, s: string)
    requires Quote !in s
    ensures ReadQuoted(parsed, escaped, s) == None
  {
  }

  /** How one character is written inside quotes. */
  function EscapeChar(c: char): (r: string)
    ensures r == [c] || r == [Backslash, c]
    ensures r[0] != Quote
  {
    if c == Backslash || c == Quote then [Backslash, c] else [c]
  }

  /** Writes `v` so that the reader gives it back: a backslash before every
      backslash and every quote. */
  function Escape(v: string): (r: string)
    ensures |v| <= |r|
  {
    if v == [] then [] else EscapeChar(v[0]) + Escape(v[1..])
  }

  /** Reading one escaped character keeps that character. */
  lemma ReadEscapedChar(parsed: string, c: char, s: string)
    ensures ReadQuoted(parsed, false, EscapeChar(c) + s) == ReadQuoted(parsed + [c], false, s)
  {
    if c == Backslash || c == Quote {
      EscapeKeepsNext(parsed, c, s);
    } else {
      PlainKept(parsed, c, s);
    }
  }

  /** Reading an escaped value up to its closing quote gives the value back,
      whatever follows the quote. */
  lemma {:induction false} ReadEscaped(parsed: string, v: string, rest: string)
    ensures ReadQuoted(parsed, false, Escape(v) + [Quote] + rest) == Some(parsed + v)
    decreases |v|
  {
    if v == [] {
      assert Escape(v) + [Quote] + rest == [Quote] + rest;
      assert parsed + v == parsed;
    } else {
      var c, more := v[0], v[1..];
      var tail := Escape(more) + [Quote] + rest;
      EscapeCons(v, rest);
      ReadEscapedChar(parsed, c, tail);
      ReadEscaped(parsed + [c], more, rest);
      assert parsed + [c] + more == parsed + v;
    }
  }

  /** An escaped value with no closing quote after it never closes: every
      quote in it is escaped. */
  lemma {:induction false} UnclosedNone(parsed: string, v: string)
    ensures ReadQuoted(parsed, false, Escape(v)) == None
    decreases |v|
  {
    if v != [] {
      var c, more := v[0], v[1..];
      assert Escape(v) == EscapeChar(c) + Escape(more);
      ReadEscapedChar(parsed, c, Escape(more));
      UnclosedNone(parsed + [c], more);
    }
  }

  /** The escaped text of a value starts with that of its first character. */
  lemma EscapeCons(v: string, rest: string)
    requires v != []
    ensures Escape(v) + [Quote] + rest == EscapeChar(v[0]) + (Escape(v[1..]) + [Quote] + rest)
  {
  }

  /** A line whose key matches and whose value, after some whitespace,
      starts with a quote reads as the quoted text after it. */
  lemma StringValueOfLine(rawKey: string, pad: string, value: string, key: string)
    requires Equals !in rawKey && Trim(rawKey) == key
    requires AllWhitespace(pad) && value != [] && value[0] == Quote
    ensures StringValue(rawKey + [Equals] + (pad + value), key) == Unquote(value[1..])
  {
    var rest := pad + value;
    SplitOnceJoin(rawKey, Equals, rest);
    TrimStartPadded(pad, value);
    assert value[..1] == [Quote];
    assert StartsWith(TrimStart(rest), [Quote]);
  }

  /** `V` written as a quoted string. */
  function Quoted(v: string): (r: string)
    ensures |r| >= 2 && r[0] == Quote && r[|r| - 1] == Quote
  {
    [Quote] + Escape(v) + [Quote]
  }

  /** No whitespace run holds an `=` or a `#`. */
  lemma PadFree(w: string)
    requires AllWhitespace(w)
    ensures Equals !in w && Hash !in w
  {
  }

  /** A key followed by whitespace is still that key, with no `=` in it. */
  lemma PaddedKey(key: string, w: string)
    requires Equals !in key && Trim(key) == key && AllWhitespace(w)
    ensures Equals !in key + w && Trim(key + w) == key
  {
    PadFree(w);
    TrimPadded([], key, w);
    assert [] + key + w == key + w;
  }

  /** A quoted value followed by more text, as the reader sees it. */
  lemma QuotedThen(w: string, v: string, rest: string)
    ensures w + Quoted(v) + rest == w + ([Quote] + (Escape(v) + [Quote] + rest))
  {
  }

  /** `KEY = "V"`, with any whitespace around the `=`, `V` escaped and
      anything after the closing quote, reads back as `V`. */
  lemma StringValueRoundTrip(key: string, w1: string, w2: string, v: string, rest: string)
    requires Equals !in key && Trim(key) == key
    requires AllWhitespace(w1) && AllWhitespace(w2)
    ensures StringValue(key + w1 + [Equals] + (w2 + Quoted(v) + rest), key) == Some(v)
  {
    var body := Escape(v) + [Quote] + rest;
    var value := [Quote] + body;
    QuotedThen(w2, v, rest);
    PaddedKey(key, w1);
    StringValueOfLine(key + w1, w2, value, key);
    assert value[1..] == body;
    ReadEscaped([], v, rest);
    assert [] + v == v;
  }

  /** `KEY = "V` with the closing quote missing, even when `V` ends in an
      escaped quote as in `"abc\"`, reads as no value. */
  lemma StringValueUnclosed(key: string, w1: string, w2: string, v: string)
    requires Equals !in key && Trim(key) == key
    requires AllWhitespace(w1) && AllWhitespace(w2)
    ensures StringValue(key + w1 + [Equals] + (w2 + [Quote] + Escape(v)), key) == None
  {
    var value := [Quote] + Escape(v);
    OpenQuoted(w2, v);
    PaddedKey(key, w1);
    StringValueOfLine(key + w1, w2, value, key);
    UnclosedNone([], v);
  }

  /** An opening quote and an escaped value after some padding, as the
      reader sees them. */
  lemma OpenQuoted(w: string, v: string)
    ensures w + [Quote] + Escape(v) == w + ([Quote] + Escape(v))
    ensures ([Quote] + Escape(v))[1..] == Escape(v)
  {
  }

  // ---------------------------------------------------------------------
  // Booleans: `parse_toml_bool_value`

  /** `split('#').next()`: the text before the first `#`, or all of it. */
  function BeforeHash(s: string): (r: string)
    ensures Hash !in r
    ensures |r| <= |s| && r == s[..|r|]
    ensures |r| < |s| ==> s[|r|] == Hash
  {
    match Find(s, Hash)
    case None => s
    case Some(i) => s[..i]
  }

  function BoolText(b: bool): string {
    if b then "true" else "false"
  }

  /** `parse_toml_bool_value(line, key)`: `true` or `false`, exactly, before
      any `#` comment and around whitespace. */
  function BoolValue(line: string, key: string): Option<bool> {
    match SplitOnce(line, Equals)
    case None => None
    case Some((rawKey, rawValue)) =>
      if Trim(rawKey) != key then None
      else
        var text := Trim(BeforeHash(rawValue));
        if text == "true" then Some(true)
        else if text == "false" then Some(false)
        else None
  }

  /** A boolean is read exactly from a line with an `=` whose left side,
      trimmed, is the key and whose value text before any `#`, trimmed, is
      `true` or `false`; it is the one that text spells. */
  lemma BoolValueShape(line: string, key: string)
    ensures BoolValue(line, key).Some? <==>
      SplitOnce(line, Equals).Some?
      && Trim(SplitOnce(line, Equals).value.0) == key
      && Trim(BeforeHash(SplitOnce(line, Equals).value.1)) in {"true", "false"}
    ensures BoolValue(line, key).Some? ==>
      Trim(BeforeHash(SplitOnce(line, Equals).value.1)) == BoolText(BoolValue(line, key).value)
  {
  }

  /** A line whose key matches reads as the boolean its value text, up to
      any `#`, spells. */
  lemma BoolValueOfLine(rawKey: string, rawValue: string, key: string)
    requires Equals !in rawKey && Trim(rawKey) == key
    ensures BoolValue(rawKey + [Equals] + rawValue, key) ==
      if Trim(BeforeHash(rawValue)) == "true" then Some(true)
      else if Trim(BeforeHash(rawValue)) == "false" then Some(false)
      else None
  {
    SplitOnceJoin(rawKey, Equals, rawValue);
  }

  /** The value text before a comment, or of a line without one. */
  lemma BeforeHashOf(t: string, tail: string)
    requires Hash !in t && (tail == [] || tail[0] == Hash)
    ensures BeforeHash(t + tail) == t
  {
    if tail != [] {
      FindAfter(t, Hash, tail[1..]);
      assert t + [Hash] + tail[1..] == t + tail;
    } else {
      assert t + tail == t;
    }
  }

  /** Neither `true` nor `false` holds a `#`. */
  lemma BoolTextNoHash(b: bool)
    ensures Hash !in BoolText(b)
  {
    var t := BoolText(b);
    forall i | 0 <= i < |t| ensures t[i] != Hash {
      if b {
        assert t == ['t', 'r', 'u', 'e'];
      } else {
        assert t == ['f', 'a', 'l', 's', 'e'];
      }
    }
  }

  /** The words `true` and `false` are their own trim. */
  lemma TrimBoolText(b: bool)
    ensures Trim(BoolText(b)) == BoolText(b)
  {
    var t := BoolText(b);
    assert t[0] in "tf" && t[|t| - 1] == 'e';
    TrimOfTrimmed(t);
  }

  /** `KEY = true` and `KEY = false`, with any whitespace around the `=`
      and the word, alone or followed by a `#` comment, read back as the
      boolean written. */
  lemma BoolValueRoundTrip(key: string, w1: string, w2: string, b: bool, w3: string, tail: string)
    requires Equals !in key && Trim(key) == key
    requires AllWhitespace(w1) && AllWhitespace(w2) && AllWhitespace(w3)
    requires tail == [] || tail[0] == Hash
    ensures BoolValue(key + w1 + [Equals] + (w2 + BoolText(b) + w3 + tail), key) == Some(b)
  {
    var t := BoolText(b);
    var text := w2 + t + w3;
    PaddedKey(key, w1);
    PadFree(w2);
    PadFree(w3);
    TrimBoolText(b);
    BoolTextNoHash(b);
    BoolValueOfLine(key + w1, text + tail, key);
    BeforeHashOf(text, tail);
    TrimPadded(w2, t, w3);
  }

  // ---------------------------------------------------------------------
  // Paths: `is_main_source_path`

  const MainSource := "src/main.rs"
  const DotSlash := "./"

  /** `replace('\\', "/")`: every backslash becomes a forward slash. */
  function Normalize(p: string): (r: string)
    ensures |r| == |p|
    ensures forall i | 0 <= i < |p| :: r[i] == (if p[i] == Backslash then '/' else p[i])
    ensures Backslash !in r
  {
    if p == [] then []
    else [if p[0] == Backslash then '/' else p[0]] + Normalize(p[1..])
  }

  /** `k` copies of `./`. */
  function DotSlashes(k: nat): (r: string)
    ensures |r| == 2 * k
  {
    if k == 0 then [] else DotSlash + DotSlashes(k - 1)
  }

  /** `trim_start_matches("./")`: how many leading `./` were stripped, and
      what is left, which no longer starts with `./`. */
  function StripDotSlash(s: string): (r: (nat, string))
    ensures s == DotSlashes(r.0) + r.1
    ensures !StartsWith(r.1, DotSlash)
    decreases |s|
  {
    if StartsWith(s, DotSlash) then
      var (k, rest) := StripDotSlash(s[2..]);
      assert s == DotSlash + s[2..];
      assert DotSlashes(k + 1) + rest == DotSlash + (DotSlashes(k) + rest);
      (k + 1, rest)
    else (0, s)
  }

  /** `is_main_source_path`. */
  predicate IsMainSourcePath(p: string) {
    StripDotSlash(Normalize(p)).1 == MainSource
  }

  /** Stripping undoes any number of leading `./` in front of text that does
      not start with one. */
  lemma {:induction false} StripDotSlashes(k: nat, m: string)
    requires !StartsWith(m, DotSlash)
    ensures StripDotSlash(DotSlashes(k) + m) == (k, m)
  {
    if k > 0 {
      StripDotSlashes(k - 1, m);
      var s := DotSlashes(k) + m;
      assert s == DotSlash + (DotSlashes(k - 1) + m);
      assert s[..2] == DotSlash;
      assert s[2..] == DotSlashes(k - 1) + m;
      assert StripDotSlash(s) == (StripDotSlash(s[2..]).0 + 1, StripDotSlash(s[2..]).1);
    } else {
      assert DotSlashes(k) + m == m;
    }
  }

  /** A path names the main source file exactly when, with backslashes read
      as slashes, it is `src/main.rs` after some number of `./`. */
  lemma MainSourcePathIff(p: string)
    ensures IsMainSourcePath(p) <==> exists k: nat :: Normalize(p) == DotSlashes(k) + MainSource
  {
    var n := Normalize(p);
    if IsMainSourcePath(p) {
      assert n == DotSlashes(StripDotSlash(n).0) + MainSource;
    }
    if exists k: nat :: n == DotSlashes(k) + MainSource {
      var k: nat :| n == DotSlashes(k) + MainSource;
      assert MainSource[..2] == "sr";
      StripDotSlashes(k, MainSource);
    }
  }
}
