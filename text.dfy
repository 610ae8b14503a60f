/** String helpers of the Rust standard library and of JavaScript, on `seq<char>`. */
module Text {

  predicate StartsWith(s: string, prefix: string)
  {
    |prefix| <= |s| && s[..|prefix|] == prefix
  }

  /** A string that differs from `prefix` at a position both have does not start with it. */
  lemma {:induction false} DiffersAt(s: string, prefix: string, i: nat)
    requires i < |prefix| && i < |s| && s[i] != prefix[i]
    ensures !StartsWith(s, prefix)
  {
    if |prefix| <= |s| {
      assert s[..|prefix|][i] == s[i];
    }
  }

  /** `p` written `k` times. */
  function Repeat(p: string, k: nat): string
  {
    if k == 0 then [] else p + Repeat(p, k - 1)
  }

  /** `str::trim_start_matches(s, p)`: strips every leading repetition of `p`. */
  function TrimStartMatches(s: string, p: string): (r: string)
    requires p != []
    ensures !StartsWith(r, p)
    ensures exists k: nat :: s == Repeat(p, k) + r
    decreases |s|
  {
    if StartsWith(s, p) then
      var r := TrimStartMatches(s[|p|..], p);
      ghost var k: nat :| s[|p|..] == Repeat(p, k) + r;
      RepeatStep(s, p, k, r);
      r
    else
      assert s == Repeat(p, 0) + s;
      s
  }

  /** A string that starts with `p`, followed by `k` more copies and then `r`, is `k + 1` copies and then `r`. */
  lemma {:induction false} RepeatStep(s: string, p: string, k: nat, r: string)
    requires StartsWith(s, p) && s[|p|..] == Repeat(p, k) + r
    ensures s == Repeat(p, k + 1) + r
  {
    assert s[..|p|] == p;
    assert s == s[..|p|] + s[|p|..];
  }

  /** Stripping removes exactly the leading repetitions when what follows them does not start with `p`. */
  lemma {:induction false} TrimStartMatchesRepeat(p: string, k: nat, s: string)
    requires p != [] && !StartsWith(s, p)
    ensures TrimStartMatches(Repeat(p, k) + s, p) == s
  {
    if k > 0 {
      var t := Repeat(p, k) + s;
      assert t == p + (Repeat(p, k - 1) + s);
      assert StartsWith(t, p);
      assert t[|p|..] == Repeat(p, k - 1) + s;
      TrimStartMatchesRepeat(p, k - 1, s);
    }
  }

  /** The pieces joined back together with `sep` between them. */
  function Join(parts: seq<string>, sep: char): string
    requires |parts| >= 1
  {
    if |parts| == 1 then parts[0] else parts[0] + [sep] + Join(parts[1..], sep)
  }

  /** `str::split(s, sep)`: the pieces between the separators, at least one. */
  function Split(s: string, sep: char): (parts: seq<string>)
    ensures |parts| >= 1
    ensures forall i :: 0 <= i < |parts| ==> sep !in parts[i]
    ensures Join(parts, sep) == s
    decreases |s|
  {
    if |s| == 0 then [""]
    else
      var rest := Split(s[1..], sep);
      if s[0] == sep then
        assert s == [sep] + s[1..];
        [""] + rest
      else
        var parts := [[s[0]] + rest[0]] + rest[1..];
        assert parts[1..] == rest[1..];
        assert s == [s[0]] + s[1..];
        parts
  }

  /** Splitting undoes joining pieces that do not contain the separator. */
  lemma {:induction false} SplitJoin(parts: seq<string>, sep: char)
    requires |parts| >= 1
    requires forall i :: 0 <= i < |parts| ==> sep !in parts[i]
    ensures Split(Join(parts, sep), sep) == parts
    decreases |parts|, |parts[0]|
  {
    var s := Join(parts, sep);
    if |parts[0]| == 0 {
      if |parts| > 1 {
        assert s == [sep] + Join(parts[1..], sep);
        assert s[1..] == Join(parts[1..], sep);
        SplitJoin(parts[1..], sep);
        assert parts == [""] + parts[1..];
      }
    } else {
      var tail := [parts[0][1..]] + parts[1..];
      assert tail[1..] == parts[1..];
      assert Join(tail, sep) == s[1..] by {
        if |parts| == 1 {
        } else {
          assert Join(tail, sep) == parts[0][1..] + [sep] + Join(parts[1..], sep);
        }
      }
      SplitJoin(tail, sep);
      assert parts[0] == [parts[0][0]] + parts[0][1..];
      assert parts == [[s[0]] + tail[0]] + tail[1..];
    }
  }

  /** Drops the leading characters that `ws` accepts. */
  function TrimStartBy(s: string, ws: char -> bool): (r: string)
    ensures |r| <= |s| && r == s[|s| - |r|..]
    ensures forall i :: 0 <= i < |s| - |r| ==> ws(s[i])
    ensures r == [] || !ws(r[0])
    decreases |s|
  {
    if |s| > 0 && ws(s[0]) then TrimStartBy(s[1..], ws) else s
  }

  /** Drops the trailing characters that `ws` accepts. */
  function TrimEndBy(s: string, ws: char -> bool): (r: string)
    ensures |r| <= |s| && r == s[..|r|]
    ensures forall i :: |r| <= i < |s| ==> ws(s[i])
    ensures r == [] || !ws(r[|r| - 1])
    decreases |s|
  {
    if |s| > 0 && ws(s[|s| - 1]) then TrimEndBy(s[..|s| - 1], ws) else s
  }

  function TrimBy(s: string, ws: char -> bool): string
  {
    TrimEndBy(TrimStartBy(s, ws), ws)
  }

  /** A trimmed string is empty exactly when every character was white space. */
  lemma {:induction false} TrimEmpty(s: string, ws: char -> bool)
    ensures TrimBy(s, ws) == [] <==> forall i :: 0 <= i < |s| ==> ws(s[i])
  {
  }

  /** `char::is_whitespace`: the Unicode White_Space property, by code point. */
  predicate RustWhitespace(c: char)
  {
    var n := c as int;
    || 0x09 <= n <= 0x0D || n == 0x20 || n == 0x85 || n == 0xA0 || n == 0x1680
    || 0x2000 <= n <= 0x200A || n == 0x2028 || n == 0x2029 || n == 0x202F
    || n == 0x205F || n == 0x3000
  }

  /** `str::trim` */
  function RustTrim(s: string): string
  {
    TrimBy(s, RustWhitespace)
  }

  /** The WhiteSpace and LineTerminator code points of ECMAScript. */
  predicate JsWhitespace(c: char)
  {
    var n := c as int;
    || 0x09 <= n <= 0x0D || n == 0x20 || n == 0xA0 || n == 0xFEFF || n == 0x1680
    || 0x2000 <= n <= 0x200A || n == 0x2028 || n == 0x2029 || n == 0x202F
    || n == 0x205F || n == 0x3000
  }

  /** `String.prototype.trim` */
  function JsTrim(s: string): string
  {
    TrimBy(s, JsWhitespace)
  }
}
