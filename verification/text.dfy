/** The string primitives the decoders are built from, modelled after the Rust
    standard library functions they stand for: `split_ascii_whitespace`, `split`
    on a string pattern, `replace`, `trim`, byte-range slicing of UTF-8 text and
    unsigned integer `parse`. Strings are sequences of Unicode scalar values. */
module Text {
  import opened Wrappers

  function Nth<T>(s: seq<T>, n: nat): (r: Option<T>)
    ensures r.Some? <==> n < |s|
    ensures r.Some? ==> r.value == s[n]
  {
    if n < |s| then Some(s[n]) else None
  }

  // ---------------------------------------------------------------------------
  // split_ascii_whitespace

  /** `char::is_ascii_whitespace`: space, tab, line feed, form feed and carriage return. */
  predicate IsAsciiSpace(c: char) {
    c == ' ' || c == '\t' || c == '\n' || c == '\r' || c as int == 0x0C
  }

  predicate NoAsciiSpace(s: string) {
    forall i :: 0 <= i < |s| ==> !IsAsciiSpace(s[i])
  }

  predicate AllAsciiSpace(s: string) {
    forall i :: 0 <= i < |s| ==> IsAsciiSpace(s[i])
  }

  /** A token as `split_ascii_whitespace` yields it: non-empty, free of ASCII space. */
  predicate IsWord(w: string) {
    |w| > 0 && NoAsciiSpace(w)
  }

  /** Length of the leading run of non-space characters. */
  function WordLength(s: string): (n: nat)
    ensures n <= |s|
    ensures NoAsciiSpace(s[..n])
    ensures n < |s| ==> IsAsciiSpace(s[n])
  {
    if |s| == 0 || IsAsciiSpace(s[0]) then 0
    else
      var m := WordLength(s[1..]);
      assert s[..1 + m] == [s[0]] + s[1..][..m];
      1 + m
  }

  /** `str::split_ascii_whitespace`: the maximal runs of non-space characters, in order. */
  function Tokens(s: string): (r: seq<string>)
    ensures forall i :: 0 <= i < |r| ==> IsWord(r[i])
    ensures |r| == 0 <==> AllAsciiSpace(s)
    decreases |s|
  {
    if |s| == 0 then []
    else if IsAsciiSpace(s[0]) then
      var r := Tokens(s[1..]);
      assert AllAsciiSpace(s[1..]) ==> AllAsciiSpace(s) by {
        if AllAsciiSpace(s[1..]) {
          forall i | 0 <= i < |s| ensures IsAsciiSpace(s[i]) {
            if i > 0 { assert s[i] == s[1..][i - 1]; }
          }
        }
      }
      r
    else
      var n := WordLength(s);
      [s[..n]] + Tokens(s[n..])
  }

  /** The characters of `s` that are not ASCII space: what the tokens are made of. */
  function Squeeze(s: string): (r: string)
    ensures |r| <= |s|
    ensures forall i :: 0 <= i < |r| ==> r[i] in s && !IsAsciiSpace(r[i])
  {
    if |s| == 0 then ""
    else if IsAsciiSpace(s[0]) then Squeeze(s[1..])
    else [s[0]] + Squeeze(s[1..])
  }

  function Concat(parts: seq<string>): string {
    if |parts| == 0 then "" else parts[0] + Concat(parts[1..])
  }

  lemma {:induction false} SqueezeAppend(a: string, b: string)
    ensures Squeeze(a + b) == Squeeze(a) + Squeeze(b)
    decreases |a|
  {
    if |a| > 0 {
      assert (a + b)[1..] == a[1..] + b;
      SqueezeAppend(a[1..], b);
    } else {
      assert a + b == b;
    }
  }

  lemma {:induction false} SqueezeWord(w: string)
    requires NoAsciiSpace(w)
    ensures Squeeze(w) == w
    decreases |w|
  {
    if |w| > 0 {
      SqueezeWord(w[1..]);
      assert w == [w[0]] + w[1..];
    }
  }

  /** Tokenising loses exactly the spaces: the tokens, glued together, are the
      input with its ASCII whitespace removed. */
  lemma {:induction false} TokensCoverText(s: string)
    ensures Concat(Tokens(s)) == Squeeze(s)
    decreases |s|
  {
    if |s| == 0 {
    } else if IsAsciiSpace(s[0]) {
      TokensCoverText(s[1..]);
    } else {
      var n := WordLength(s);
      TokensCoverText(s[n..]);
      assert s == s[..n] + s[n..];
      SqueezeAppend(s[..n], s[n..]);
      SqueezeWord(s[..n]);
      assert Tokens(s) == [s[..n]] + Tokens(s[n..]);
      assert Tokens(s)[1..] == Tokens(s[n..]);
    }
  }

  lemma {:induction false} WordLengthOfWord(w: string, rest: string)
    requires NoAsciiSpace(w)
    requires |rest| == 0 || IsAsciiSpace(rest[0])
    ensures WordLength(w + rest) == |w|
    decreases |w|
  {
    if |w| > 0 {
      assert (w + rest)[1..] == w[1..] + rest;
      WordLengthOfWord(w[1..], rest);
    } else {
      assert w + rest == rest;
    }
  }

  /** A word followed by a space (or by nothing) is the first token, and the
      remaining tokens come from what follows it. */
  lemma TokensOfWord(w: string, rest: string)
    requires IsWord(w)
    requires |rest| == 0 || IsAsciiSpace(rest[0])
    ensures Tokens(w + rest) == [w] + Tokens(rest)
  {
    WordLengthOfWord(w, rest);
    var s := w + rest;
    assert s[..|w|] == w;
    assert s[|w|..] == rest;
  }

  /** Leading whitespace never changes the tokens. */
  lemma {:induction false} TokensSkipSpace(sp: string, s: string)
    requires AllAsciiSpace(sp)
    ensures Tokens(sp + s) == Tokens(s)
    decreases |sp|
  {
    if |sp| > 0 {
      assert (sp + s)[1..] == sp[1..] + s;
      TokensSkipSpace(sp[1..], s);
    } else {
      assert sp + s == s;
    }
  }

  // ---------------------------------------------------------------------------
  // Substring search, split, join, replace

  predicate OccursAt(s: string, p: string, i: int) {
    0 <= i && i + |p| <= |s| && forall k :: 0 <= k < |p| ==> s[i + k] == p[k]
  }

  predicate Contains(s: string, p: string) {
    exists i | 0 <= i <= |s| :: OccursAt(s, p, i)
  }

  /** A one-character pattern occurs exactly where that character stands. */
  lemma OccursAtChar(s: string, c: char, i: int)
    requires 0 <= i < |s|
    ensures OccursAt(s, [c], i) <==> s[i] == c
  {
    if OccursAt(s, [c], i) {
      var k := 0;
      assert s[i + k] == [c][k];
    }
    if s[i] == c {
      forall k | 0 <= k < |[c]| ensures s[i + k] == [c][k] {
        assert k == 0;
      }
    }
  }

  /** The leftmost occurrence of `p` in `s` at or after `from`. */
  function FindFrom(s: string, p: string, from: nat): (r: Option<nat>)
    requires |p| > 0
    ensures r.Some? ==> from <= r.value && OccursAt(s, p, r.value)
    ensures r.Some? ==> forall j :: from <= j < r.value ==> !OccursAt(s, p, j)
    ensures r.None? ==> forall j :: from <= j ==> !OccursAt(s, p, j)
    decreases |s| - from
  {
    if from + |p| > |s| then None
    else if s[from..from + |p|] == p then Some(from)
    else FindFrom(s, p, from + 1)
  }

  /** The leftmost occurrence of a non-empty pattern, as Rust's string searcher finds it. */
  function IndexOf(s: string, p: string): (r: Option<nat>)
    requires |p| > 0
    ensures r.Some? ==> OccursAt(s, p, r.value) && forall j :: 0 <= j < r.value ==> !OccursAt(s, p, j)
    ensures r.None? <==> !Contains(s, p)
  {
    FindFrom(s, p, 0)
  }

  lemma PrefixBeforeMatch(s: string, p: string, i: nat)
    requires |p| > 0
    requires i <= |s|
    requires forall j :: 0 <= j < i ==> !OccursAt(s, p, j)
    ensures !Contains(s[..i], p)
  {
    forall j | OccursAt(s[..i], p, j) ensures false {
      assert s[..i][j..j + |p|] == s[j..j + |p|];
      assert OccursAt(s, p, j);
    }
  }

  /** `str::split` with a non-empty string pattern: the pieces between successive
      leftmost non-overlapping matches. */
  function Split(s: string, p: string): (r: seq<string>)
    requires |p| > 0
    ensures |r| >= 1
    decreases |s|
  {
    var found := IndexOf(s, p);
    if found.None? then [s] else [s[..found.value]] + Split(s[found.value + |p|..], p)
  }

  /** Without a match the text comes back whole; otherwise the first piece is the
      text before the leftmost match, and at least one more piece follows. */
  lemma SplitFirst(s: string, p: string)
    requires |p| > 0
    ensures IndexOf(s, p).None? ==> Split(s, p) == [s]
    ensures IndexOf(s, p).Some? ==> |Split(s, p)| >= 2 && Split(s, p)[0] == s[..IndexOf(s, p).value]
  {
  }

  /** A single piece comes back exactly when the pattern does not occur. */
  lemma SplitSingle(s: string, p: string)
    requires |p| > 0
    ensures |Split(s, p)| == 1 <==> !Contains(s, p)
  {
  }

  /** No piece contains the pattern: every match was consumed as a separator. */
  lemma {:induction false} SplitPiecesLackPattern(s: string, p: string)
    requires |p| > 0
    ensures forall i :: 0 <= i < |Split(s, p)| ==> !Contains(Split(s, p)[i], p)
    decreases |s|
  {
    match IndexOf(s, p)
    case None =>
    case Some(i) =>
      PrefixBeforeMatch(s, p, i);
      SplitPiecesLackPattern(s[i + |p|..], p);
      SplitUnfold(s, p, i);
  }

  function Join(parts: seq<string>, sep: string): string {
    if |parts| == 0 then ""
    else if |parts| == 1 then parts[0]
    else parts[0] + sep + Join(parts[1..], sep)
  }

  lemma SplitUnfold(s: string, p: string, i: nat)
    requires |p| > 0
    requires IndexOf(s, p) == Some(i)
    ensures Split(s, p) == [s[..i]] + Split(s[i + |p|..], p)
  {
    var rest := s[i + |p|..];
    assert Split(s, p) == [s[..i]] + Split(rest, p);
  }

  lemma Reassemble(s: string, i: nat, j: nat)
    requires i <= j <= |s|
    ensures s == s[..i] + s[i..j] + s[j..]
  {
  }

  lemma JoinCons(a: string, tail: seq<string>, sep: string)
    requires |tail| >= 1
    ensures Join([a] + tail, sep) == a + sep + Join(tail, sep)
  {
    assert ([a] + tail)[1..] == tail;
  }

  /** Splitting loses nothing: joining the pieces back with the pattern restores the text. */
  lemma {:induction false} JoinSplit(s: string, p: string)
    requires |p| > 0
    ensures Join(Split(s, p), p) == s
    decreases |s|
  {
    var found := IndexOf(s, p);
    if found.Some? {
      var i := found.value;
      var rest := s[i + |p|..];
      var tail := Split(rest, p);
      JoinSplit(rest, p);
      SplitUnfold(s, p, i);
      JoinCons(s[..i], tail, p);
      assert s[i..i + |p|] == p;
      Reassemble(s, i, i + |p|);
    }
  }

  /** The first piece is the text before the first match, and there is a second
      piece exactly when the pattern occurs. */
  lemma SplitSecondPiece(a: string, p: string, b: string)
    requires |p| > 0
    requires !Contains(a, p)
    requires !Contains(b, p)
    requires forall j :: 0 <= j < |a| ==> !OccursAt(a + p + b, p, j)
    ensures Split(a + p + b, p) == [a, b]
  {
    var s := a + p + b;
    assert OccursAt(s, p, |a|) by { assert s[|a|..|a| + |p|] == p; }
    assert IndexOf(s, p) == Some(|a|);
    assert s[..|a|] == a;
    assert s[|a| + |p|..] == b;
  }

  /** `str::replace`: every leftmost non-overlapping match of `from` replaced by
      `to`. The standard library copies the text between successive matches and
      writes `to` in place of each match, which is joining the split pieces. */
  function Replace(s: string, from: string, to: string): (r: string)
    requires |from| > 0
    ensures !Contains(s, from) ==> r == s
  {
    Join(Split(s, from), to)
  }

  lemma {:induction false} JoinLacksChar(parts: seq<string>, sep: string, c: char)
    requires c !in sep
    requires forall i :: 0 <= i < |parts| ==> c !in parts[i]
    ensures c !in Join(parts, sep)
    decreases |parts|
  {
    if |parts| > 1 {
      JoinLacksChar(parts[1..], sep, c);
    }
  }

  /** Replacing a single character by text that lacks it leaves no copy of it. */
  lemma ReplaceRemovesChar(s: string, c: char, to: string)
    requires c !in to
    ensures c !in Replace(s, [c], to)
  {
    var parts := Split(s, [c]);
    SplitPiecesLackPattern(s, [c]);
    forall i | 0 <= i < |parts| ensures c !in parts[i] {
      forall k | 0 <= k < |parts[i]| ensures parts[i][k] != c {
        assert !OccursAt(parts[i], [c], k);
      }
    }
    JoinLacksChar(parts, to, c);
  }

  // ---------------------------------------------------------------------------
  // trim

  /** `char::is_whitespace`: the Unicode White_Space property. */
  predicate IsWhiteSpace(c: char) {
    var n := c as int;
    (0x09 <= n <= 0x0D) || n == 0x20 || n == 0x85 || n == 0xA0 || n == 0x1680
    || (0x2000 <= n <= 0x200A) || n == 0x2028 || n == 0x2029 || n == 0x202F
    || n == 0x205F || n == 0x3000
  }

  predicate AllWhiteSpace(s: string) {
    forall i :: 0 <= i < |s| ==> IsWhiteSpace(s[i])
  }

  function TrimStart(s: string): (r: string)
    ensures |r| <= |s|
    ensures r == s[|s| - |r|..]
    ensures forall i :: 0 <= i < |s| - |r| ==> IsWhiteSpace(s[i])
    ensures |r| > 0 ==> !IsWhiteSpace(r[0])
  {
    if |s| > 0 && IsWhiteSpace(s[0]) then
      var r := TrimStart(s[1..]);
      assert forall i :: 1 <= i < |s| ==> s[i] == s[1..][i - 1];
      r
    else s
  }

  function TrimEnd(s: string): (r: string)
    ensures |r| <= |s|
    ensures r == s[..|r|]
    ensures forall i :: |r| <= i < |s| ==> IsWhiteSpace(s[i])
    ensures |r| > 0 ==> !IsWhiteSpace(r[|r| - 1])
  {
    if |s| > 0 && IsWhiteSpace(s[|s| - 1]) then
      var r := TrimEnd(s[..|s| - 1]);
      assert forall i :: 0 <= i < |s| - 1 ==> s[i] == s[..|s| - 1][i];
      r
    else s
  }

  /** `str::trim`: `s` with leading and trailing white space removed. */
  function Trim(s: string): (r: string)
    ensures |r| > 0 ==> !IsWhiteSpace(r[0]) && !IsWhiteSpace(r[|r| - 1])
  {
    TrimEnd(TrimStart(s))
  }

  lemma {:induction false} TrimStartPadded(a: string, t: string)
    requires AllWhiteSpace(a)
    requires |t| == 0 || !IsWhiteSpace(t[0])
    ensures TrimStart(a + t) == t
    decreases |a|
  {
    if |a| > 0 {
      assert (a + t)[1..] == a[1..] + t;
      TrimStartPadded(a[1..], t);
    } else {
      assert a + t == t;
    }
  }

  lemma {:induction false} TrimEndPadded(t: string, b: string)
    requires AllWhiteSpace(b)
    requires |t| == 0 || !IsWhiteSpace(t[|t| - 1])
    ensures TrimEnd(t + b) == t
    decreases |b|
  {
    if |b| > 0 {
      var b' := b[..|b| - 1];
      assert (t + b)[..|t + b| - 1] == t + b';
      TrimEndPadded(t, b');
    } else {
      assert t + b == t;
    }
  }

  /** Trimming removes exactly the white-space padding around a text that
      neither starts nor ends with white space. */
  lemma TrimPadded(a: string, t: string, b: string)
    requires AllWhiteSpace(a) && AllWhiteSpace(b)
    requires |t| > 0 ==> !IsWhiteSpace(t[0]) && !IsWhiteSpace(t[|t| - 1])
    ensures Trim(a + t + b) == t
  {
    if |t| > 0 {
      assert a + t + b == a + (t + b);
      TrimStartPadded(a, t + b);
      TrimEndPadded(t, b);
    } else {
      assert a + t + b == a + b;
      assert AllWhiteSpace(a + b);
      TrimAllSpace(a + b);
    }
  }

  lemma TrimAllSpace(s: string)
    requires AllWhiteSpace(s)
    ensures Trim(s) == ""
  {
    TrimStartPadded(s, "");
    assert s + "" == s;
  }

  // ---------------------------------------------------------------------------
  // Byte-range slicing of UTF-8 text

  /** Number of bytes of `c` in UTF-8. */
  function Utf8Length(c: char): (n: nat)
    ensures 1 <= n <= 4
  {
    var v := c as int;
    if v < 0x80 then 1 else if v < 0x800 then 2 else if v < 0x10000 then 3 else 4
  }

  function Utf8Size(s: string): nat {
    if |s| == 0 then 0 else Utf8Length(s[0]) + Utf8Size(s[1..])
  }

  /** `&t[0..n]`: the characters making up the first `n` UTF-8 bytes of `t`;
      `None` where Rust's slice panics, that is when `t` is shorter than `n`
      bytes or byte `n` falls inside a multi-byte character. */
  function BytePrefix(t: string, n: nat): (r: Option<string>)
    ensures r.Some? ==> |r.value| <= |t| && r.value == t[..|r.value|] && Utf8Size(r.value) == n
    ensures r.None? ==> forall k :: 0 <= k <= |t| ==> Utf8Size(t[..k]) != n
    decreases n
  {
    if n == 0 then Some("")
    else if |t| == 0 then None
    else if Utf8Length(t[0]) > n then
      assert forall k :: 1 <= k <= |t| ==> Utf8Size(t[..k]) >= Utf8Length(t[0]) by {
        forall k | 1 <= k <= |t| ensures Utf8Size(t[..k]) >= Utf8Length(t[0]) {
          assert t[..k][0] == t[0];
        }
      }
      None
    else
      var rest := BytePrefix(t[1..], n - Utf8Length(t[0]));
      match rest
      case None =>
        assert forall k :: 1 <= k <= |t| ==> t[..k][1..] == t[1..][..k - 1];
        None
      case Some(p) =>
        assert [t[0]] + p == t[..1 + |p|];
        Some([t[0]] + p)
  }

  predicate IsAscii(s: string) {
    forall i :: 0 <= i < |s| ==> s[i] as int < 0x80
  }

  lemma {:induction false} AsciiSize(s: string)
    requires IsAscii(s)
    ensures Utf8Size(s) == |s|
    decreases |s|
  {
    if |s| > 0 {
      AsciiSize(s[1..]);
    }
  }

  /** On ASCII text a byte slice is a character slice. */
  lemma AsciiBytePrefix(t: string, n: nat)
    requires n <= |t|
    requires IsAscii(t[..n])
    ensures BytePrefix(t, n) == Some(t[..n])
  {
    AsciiSize(t[..n]);
    var r := BytePrefix(t, n);
    var m := |r.value|;
    if m < n {
      PrefixSizeGrows(t, m, n);
    } else if m > n {
      PrefixSizeGrows(t, n, m);
    }
  }

  lemma {:induction false} PrefixSizeGrows(t: string, j: nat, k: nat)
    requires j < k <= |t|
    ensures Utf8Size(t[..j]) < Utf8Size(t[..k])
    decreases j
  {
    if j == 0 {
      assert t[..k][0] == t[0];
    } else {
      assert t[..j][1..] == t[1..][..j - 1];
      assert t[..k][1..] == t[1..][..k - 1];
      PrefixSizeGrows(t[1..], j - 1, k - 1);
    }
  }

  // ---------------------------------------------------------------------------
  // Unsigned integer parsing

  predicate IsDigit(c: char) {
    '0' <= c <= '9'
  }

  predicate AllDigits(s: string) {
    forall i :: 0 <= i < |s| ==> IsDigit(s[i])
  }

  function DigitValue(c: char): nat
    requires IsDigit(c)
  {
    c as int - '0' as int
  }

  function Pow10(n: nat): (r: nat)
    ensures r >= 1
  {
    if n == 0 then 1 else 10 * Pow10(n - 1)
  }

  /** The number a digit string denotes, read most significant digit first. */
  function DigitsValue(ds: string): nat
    requires AllDigits(ds)
  {
    if |ds| == 0 then 0 else DigitValue(ds[0]) * Pow10(|ds| - 1) + DigitsValue(ds[1..])
  }

  /** Rust accepts one leading '+' in front of a non-empty remainder. */
  function StripPlus(s: string): string {
    if |s| > 1 && s[0] == '+' then s[1..] else s
  }

  lemma AllDigitsTail(ds: string)
    requires |ds| > 0
    ensures AllDigits(ds) <==> IsDigit(ds[0]) && AllDigits(ds[1..])
  {
    assert forall i :: 1 <= i < |ds| ==> ds[i] == ds[1..][i - 1];
  }

  lemma ShiftDigit(acc: nat, d: nat, n: nat, v: nat)
    ensures acc * Pow10(n + 1) + (d * Pow10(n) + v) == (acc * 10 + d) * Pow10(n) + v
  {
    var p := Pow10(n);
    assert Pow10(n + 1) == 10 * p;
    assert acc * (10 * p) == (acc * 10) * p;
    assert (acc * 10) * p + d * p == (acc * 10 + d) * p;
  }

  lemma Grows(a: nat, p: nat)
    requires p >= 1
    ensures a * p >= a
  {
  }

  /** The digit loop of `from_str_radix`: multiply-and-add with an overflow check
      after every digit, failing on the first character that is not a digit. */
  function Accumulate(ds: string, acc: nat, max: nat): (r: Option<nat>)
    requires acc <= max
    ensures r.Some? <==> AllDigits(ds) && acc * Pow10(|ds|) + DigitsValue(ds) <= max
    ensures r.Some? ==> r.value == acc * Pow10(|ds|) + DigitsValue(ds)
    decreases |ds|
  {
    if |ds| == 0 then Some(acc)
    else
      AllDigitsTail(ds);
      if !IsDigit(ds[0]) then None
      else
        var a := acc * 10 + DigitValue(ds[0]);
        var n := |ds| - 1;
        ghost var whole := AllDigits(ds[1..]);
        assert whole ==> acc * Pow10(|ds|) + DigitsValue(ds) == a * Pow10(n) + DigitsValue(ds[1..]) by {
          if whole {
            ShiftDigit(acc, DigitValue(ds[0]), n, DigitsValue(ds[1..]));
          }
        }
        if a > max then
          Grows(a, Pow10(n));
          None
        else Accumulate(ds[1..], a, max)
  }

  /** `<uN as FromStr>::from_str` for an unsigned type whose largest value is `max`. */
  function ParseUnsigned(s: string, max: nat): (r: Option<nat>)
    ensures r.Some? ==> r.value <= max
    ensures r.Some? ==> |s| > 0
    ensures r.Some? <==> var ds := StripPlus(s); |ds| > 0 && AllDigits(ds) && DigitsValue(ds) <= max
  {
    var ds := StripPlus(s);
    if |ds| == 0 then None else Accumulate(ds, 0, max)
  }

  const U8Max: nat := 255
  /** `usize` on a 64-bit target. */
  const UsizeMax: nat := 0xFFFF_FFFF_FFFF_FFFF

  /** Decimal rendering of `n`, without sign or leading zeros. */
  function Decimal(n: nat): (r: string)
    ensures |r| > 0 && AllDigits(r)
    decreases n
  {
    var d := ['0' + (n % 10) as char];
    if n < 10 then d else Decimal(n / 10) + d
  }

  lemma Distribute(a: nat, b: nat, c: nat)
    ensures a * (10 * b) + 10 * c == 10 * (a * b + c)
  {
  }

  lemma {:induction false} DigitsValueAppend(ds: string, c: char)
    requires AllDigits(ds) && IsDigit(c)
    ensures AllDigits(ds + [c])
    ensures DigitsValue(ds + [c]) == 10 * DigitsValue(ds) + DigitValue(c)
    decreases |ds|
  {
    assert AllDigits(ds + [c]);
    if |ds| > 0 {
      var tail := ds[1..];
      assert (ds + [c])[1..] == tail + [c];
      assert (ds + [c])[0] == ds[0];
      DigitsValueAppend(tail, c);
      var d0 := DigitValue(ds[0]);
      var k := |ds| - 1;
      assert DigitsValue(ds + [c]) == d0 * Pow10(k + 1) + DigitsValue(tail + [c]);
      assert Pow10(k + 1) == 10 * Pow10(k);
      Distribute(d0, Pow10(k), DigitsValue(tail));
      assert DigitsValue(ds) == d0 * Pow10(k) + DigitsValue(tail);
    } else {
      assert ds + [c] == [c];
    }
  }

  lemma {:induction false} DecimalValue(n: nat)
    ensures DigitsValue(Decimal(n)) == n
    decreases n
  {
    var d := '0' + (n % 10) as char;
    if n < 10 {
      assert Decimal(n) == [d];
    } else {
      DecimalValue(n / 10);
      DigitsValueAppend(Decimal(n / 10), d);
    }
  }

  /** Round trip: the decimal rendering of any value in range parses back to it. */
  lemma ParseDecimal(n: nat, max: nat)
    requires n <= max
    ensures ParseUnsigned(Decimal(n), max) == Some(n)
  {
    DecimalValue(n);
    assert StripPlus(Decimal(n)) == Decimal(n);
  }

  /** One leading plus sign is accepted and ignored. */
  lemma ParsePlus(ds: string, max: nat)
    requires |ds| > 0 && AllDigits(ds)
    ensures ParseUnsigned("+" + ds, max) == ParseUnsigned(ds, max)
  {
    assert ("+" + ds)[1..] == ds;
    assert StripPlus(ds) == ds;
  }
}
