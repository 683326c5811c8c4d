/** The java.lang.String and java.lang.Integer operations the robots.txt engine
    relies on, with the edge cases of their Java definitions written out:
    toLowerCase (ASCII letters only), trim, split with a one-character
    separator (trailing empty pieces dropped), startsWith and parseInt.
    It also holds the exceptions the engine can raise. */
module JavaText {

  datatype Option<+T> = None | Some(value: T)

  /** The Java exceptions the engine lets escape. */
  datatype Fault =
    | IndexOutOfBounds   // `split(":")[1]` on a line with no value after the colon
    | NullPointer        // a rule line before any `user-agent` line
    | NumberFormat       // `Integer.parseInt` on a value that is not a number
    | IO                 // fetching robots.txt failed

  datatype Result<+T> = Ok(value: T) | Err(fault: Fault)

  // ---------------------------------------------------------------------------
  // Characters and lower-casing

  predicate IsUpper(c: char) { 'A' <= c <= 'Z' }

  predicate NoUpper(s: string) { forall i :: 0 <= i < |s| ==> !IsUpper(s[i]) }

  function LowerChar(c: char): (d: char)
    ensures !IsUpper(d)
    ensures IsUpper(c) ==> d as int == c as int + 32
    ensures !IsUpper(c) ==> d == c
  {
    if IsUpper(c) then (c as int + 32) as char else c
  }

  /** `String.toLowerCase`, on ASCII letters. */
  function ToLower(s: string): (r: string)
    ensures |r| == |s|
    ensures NoUpper(r)
    ensures forall i :: 0 <= i < |s| && !IsUpper(s[i]) ==> r[i] == s[i]
    ensures forall i :: 0 <= i < |s| && IsUpper(s[i]) ==> r[i] as int == s[i] as int + 32
  {
    seq(|s|, i requires 0 <= i < |s| => LowerChar(s[i]))
  }

  lemma ToLowerIdempotent(s: string)
    ensures ToLower(ToLower(s)) == ToLower(s)
  {
  }

  predicate StartsWith(s: string, prefix: string) {
    |prefix| <= |s| && s[..|prefix|] == prefix
  }

  // ---------------------------------------------------------------------------
  // trim

  /** The characters `String.trim` removes: every code point up to U+0020. */
  predicate IsTrimmed(c: char) { c <= ' ' }

  function TrimStart(s: string): (i: nat)
    ensures i <= |s|
    ensures forall k :: 0 <= k < i ==> IsTrimmed(s[k])
    ensures i < |s| ==> !IsTrimmed(s[i])
  {
    if s != [] && IsTrimmed(s[0]) then 1 + TrimStart(s[1..]) else 0
  }

  function TrimEnd(s: string, lo: nat): (j: nat)
    requires lo <= |s|
    ensures lo <= j <= |s|
    ensures forall k :: j <= k < |s| ==> IsTrimmed(s[k])
    ensures j > lo ==> !IsTrimmed(s[j - 1])
    decreases |s|
  {
    if |s| > lo && IsTrimmed(s[|s| - 1]) then TrimEnd(s[..|s| - 1], lo) else |s|
  }

  /** `String.trim`: the longest slice of `s` that neither starts nor ends with
      a character up to U+0020; everything cut off on either side is such a
      character. */
  function Trim(s: string): (r: string)
    ensures r == [] || (!IsTrimmed(r[0]) && !IsTrimmed(r[|r| - 1]))
    ensures exists i :: TrimmedAt(s, i, r)
  {
    var i := TrimStart(s);
    var j := TrimEnd(s, i);
    assert TrimmedAt(s, i, s[i..j]);
    s[i..j]
  }

  /** `r` is the slice of `s` starting at `i`, and everything around it is
      trimmed away. */
  predicate TrimmedAt(s: string, i: int, r: string) {
    && 0 <= i <= |s| - |r|
    && r == s[i..i + |r|]
    && (forall k :: 0 <= k < i ==> IsTrimmed(s[k]))
    && (forall k :: i + |r| <= k < |s| ==> IsTrimmed(s[k]))
  }

  /** Trim removes exactly the trimmable characters around a middle that
      neither starts nor ends with one. */
  lemma TrimAround(pre: string, m: string, post: string)
    requires forall k :: 0 <= k < |pre| ==> IsTrimmed(pre[k])
    requires forall k :: 0 <= k < |post| ==> IsTrimmed(post[k])
    requires m == [] || (!IsTrimmed(m[0]) && !IsTrimmed(m[|m| - 1]))
    ensures Trim(pre + m + post) == m
  {
    var s := pre + m + post;
    var r := Trim(s);
    var i :| TrimmedAt(s, i, r);
    if m != [] {
      assert s[|pre|] == m[0] && s[|pre| + |m| - 1] == m[|m| - 1];
      assert r != [];
      assert s[i] == r[0];
      assert i == |pre|;
      assert s[i + |r| - 1] == r[|r| - 1];
      assert i + |r| == |pre| + |m|;
      assert r == s[|pre|..|pre| + |m|];
    }
  }

  // ---------------------------------------------------------------------------
  // split

  /** Every piece of `s` between occurrences of `sep`, empty ones included. */
  function Pieces(s: string, sep: char): (ps: seq<string>)
    ensures |ps| >= 1
    ensures forall k :: 0 <= k < |ps| ==> sep !in ps[k]
  {
    if s == [] then [[]]
    else
      var rest := Pieces(s[1..], sep);
      if s[0] == sep then [[]] + rest else [[s[0]] + rest[0]] + rest[1..]
  }

  function Join(ps: seq<string>, sep: char): string
    requires |ps| >= 1
  {
    if |ps| == 1 then ps[0] else ps[0] + [sep] + Join(ps[1..], sep)
  }

  /** Joining the pieces back with the separator gives the string again. */
  lemma {:induction false} JoinPieces(s: string, sep: char)
    ensures Join(Pieces(s, sep), sep) == s
  {
    if s != [] {
      JoinPieces(s[1..], sep);
      var rest := Pieces(s[1..], sep);
      if s[0] != sep && |rest| > 1 {
        assert [s[0]] + rest[0] + [sep] + Join(rest[1..], sep) == [s[0]] + (rest[0] + [sep] + Join(rest[1..], sep));
      }
    }
  }

  /** Conversely, separator-free pieces are recovered from their join. */
  lemma {:induction false} PiecesOfJoin(ps: seq<string>, sep: char)
    requires |ps| >= 1
    requires forall k :: 0 <= k < |ps| ==> sep !in ps[k]
    ensures Pieces(Join(ps, sep), sep) == ps
  {
    if |ps| == 1 {
      PiecesOfSepFree(ps[0], sep);
    } else {
      PiecesOfJoin(ps[1..], sep);
      PiecesCons(ps[0], Join(ps[1..], sep), sep);
    }
  }

  lemma {:induction false} PiecesOfSepFree(s: string, sep: char)
    requires sep !in s
    ensures Pieces(s, sep) == [s]
  {
    if s != [] {
      PiecesOfSepFree(s[1..], sep);
      assert [s[0]] + s[1..] == s;
    }
  }

  lemma {:induction false} PiecesCons(p: string, t: string, sep: char)
    requires sep !in p
    ensures Pieces(p + [sep] + t, sep) == [p] + Pieces(t, sep)
  {
    if p == [] {
      assert (p + [sep] + t)[1..] == t;
    } else {
      assert (p + [sep] + t)[1..] == p[1..] + [sep] + t;
      PiecesCons(p[1..], t, sep);
      assert [p[0]] + p[1..] == p;
    }
  }

  lemma {:induction false} PiecesKeepNoUpper(s: string, sep: char)
    requires NoUpper(s)
    ensures forall k :: 0 <= k < |Pieces(s, sep)| ==> NoUpper(Pieces(s, sep)[k])
  {
    if s != [] {
      PiecesKeepNoUpper(s[1..], sep);
    }
  }

  /** The pieces left after dropping every trailing empty one. */
  function DropTrailingEmpty(ps: seq<string>): (r: seq<string>)
    ensures |r| <= |ps| && r == ps[..|r|]
    ensures forall k :: |r| <= k < |ps| ==> ps[k] == []
    ensures r == [] || r[|r| - 1] != []
  {
    if ps != [] && ps[|ps| - 1] == [] then DropTrailingEmpty(ps[..|ps| - 1]) else ps
  }

  /** `String.split` with a one-character, non-meta separator and no limit:
      when the separator does not occur the result is the string itself,
      otherwise the pieces with trailing empty ones removed. */
  function Split(s: string, sep: char): (r: seq<string>)
    ensures sep !in s ==> r == [s]
    ensures sep in s ==> |r| <= |Pieces(s, sep)| && r == Pieces(s, sep)[..|r|]
                         && (forall k :: |r| <= k < |Pieces(s, sep)| ==> Pieces(s, sep)[k] == [])
                         && (r == [] || r[|r| - 1] != [])
    ensures forall k :: 0 <= k < |r| ==> sep !in r[k]
  {
    if sep !in s then
      PiecesOfSepFree(s, sep);
      [s]
    else DropTrailingEmpty(Pieces(s, sep))
  }

  lemma SplitKeepsNoUpper(s: string, sep: char)
    requires NoUpper(s)
    ensures forall k :: 0 <= k < |Split(s, sep)| ==> NoUpper(Split(s, sep)[k])
  {
    PiecesKeepNoUpper(s, sep);
  }

  // ---------------------------------------------------------------------------
  // Integer.parseInt

  const IntMin: int := -0x8000_0000
  const IntMax: int := 0x7fff_ffff

  /** The first code point of each block of ten decimal digits (general
      category Nd) in the Basic Multilingual Plane, Unicode 15.0: ASCII first,
      then the fullwidth forms, then the other scripts in code point order.
      `parseInt` reads UTF-16 units through `Character.digit`, so digits
      outside that plane, which are surrogate pairs, are never digits. */
  const DigitZeros: seq<int> := [
    0x0030, 0xFF10,
    0x0660, 0x06F0, 0x07C0, 0x0966, 0x09E6, 0x0A66, 0x0AE6, 0x0B66, 0x0BE6,
    0x0C66, 0x0CE6, 0x0D66, 0x0DE6, 0x0E50, 0x0ED0, 0x0F20, 0x1040, 0x1090,
    0x17E0, 0x1810, 0x1946, 0x19D0, 0x1A80, 0x1A90, 0x1B50, 0x1BB0, 0x1C40,
    0x1C50, 0xA620, 0xA8D0, 0xA900, 0xA9D0, 0xA9F0, 0xAA50, 0xABF0]

  /** The zero of the digit block holding `c`, searching the blocks from
      index `k` on. */
  function DigitZero(c: char, k: nat): (z: Option<int>)
    ensures z.Some? ==> z.value <= c as int < z.value + 10
    decreases |DigitZeros| - k
  {
    if k >= |DigitZeros| then None
    else if DigitZeros[k] <= c as int < DigitZeros[k] + 10 then Some(DigitZeros[k])
    else DigitZero(c, k + 1)
  }

  /** `Character.isDigit`, for a UTF-16 unit. */
  predicate IsDigit(c: char) { DigitZero(c, 0).Some? }

  /** `Character.digit(c, 10)` for a digit. */
  function DigitValue(c: char): (d: nat)
    requires IsDigit(c)
    ensures d < 10
  {
    c as int - DigitZero(c, 0).value
  }

  /** Every digit block starts at `0` or above. */
  lemma ZerosFromAsciiZero()
    ensures forall k :: 0 <= k < |DigitZeros| ==> DigitZeros[k] >= '0' as int
  {
  }

  /** So no character below `0`, a sign in particular, is a digit. */
  lemma {:induction false} BelowDigits(c: char, k: nat)
    requires c < '0'
    ensures DigitZero(c, k) == None
    decreases |DigitZeros| - k
  {
    if k < |DigitZeros| {
      ZerosFromAsciiZero();
      BelowDigits(c, k + 1);
    }
  }

  lemma AsciiDigit(c: char)
    requires '0' <= c <= '9'
    ensures IsDigit(c) && DigitValue(c) == c as int - '0' as int
  {
  }

  predicate AllDigits(s: string) { forall i :: 0 <= i < |s| ==> IsDigit(s[i]) }

  function DigitsValue(s: string): nat
    requires AllDigits(s)
  {
    if s == [] then 0 else DigitsValue(s[..|s| - 1]) * 10 + DigitValue(s[|s| - 1])
  }

  /** `Integer.parseInt` in base 10: an optional sign, then at least one
      decimal digit of any script, and a value that fits in 32 bits; anything
      else is a NumberFormatException, here `None`. */
  function ParseInt(s: string): (r: Option<int>)
    ensures r.Some? ==> IntMin <= r.value <= IntMax
    ensures r.Some? ==> |s| >= 1
    ensures (exists i :: 0 < i < |s| && !IsDigit(s[i])) ==> r == None
    ensures |s| >= 1 && s[0] != '-' && s[0] != '+' && !IsDigit(s[0]) ==> r == None
  {
    if s == [] then None
    else
      var digits := if s[0] == '-' || s[0] == '+' then s[1..] else s;
      if digits == [] || !AllDigits(digits) then None
      else
        var v: int := if s[0] == '-' then 0 - DigitsValue(digits) else DigitsValue(digits);
        if IntMin <= v <= IntMax then Some(v) else None
  }

  /** The value of every digit string, leading zeros included: unsigned or
      with `+` it is read up to 2^31-1, with `-` down to -2^31, and beyond
      that it overflows. */
  lemma ParseIntDigits(d: string)
    requires d != [] && AllDigits(d)
    ensures ParseInt(d) == if DigitsValue(d) <= IntMax then Some(DigitsValue(d)) else None
    ensures ParseInt("+" + d) == if DigitsValue(d) <= IntMax then Some(DigitsValue(d)) else None
    ensures ParseInt("-" + d) == if DigitsValue(d) <= -IntMin then Some(-(DigitsValue(d) as int)) else None
  {
    ParseIntUnsigned(d);
    ParseIntSigned('+', d);
    ParseIntSigned('-', d);
  }

  lemma ParseIntUnsigned(d: string)
    requires d != [] && AllDigits(d)
    ensures ParseInt(d) == if DigitsValue(d) <= IntMax then Some(DigitsValue(d)) else None
  {
    BelowDigits('-', 0);
    BelowDigits('+', 0);
    assert IsDigit(d[0]);
  }

  lemma ParseIntSigned(sign: char, d: string)
    requires sign == '+' || sign == '-'
    requires d != [] && AllDigits(d)
    ensures ParseInt([sign] + d) ==
      if sign == '+' then (if DigitsValue(d) <= IntMax then Some(DigitsValue(d)) else None)
      else if DigitsValue(d) <= -IntMin then Some(-(DigitsValue(d) as int)) else None
  {
    var s := [sign] + d;
    assert s[0] == sign && s[1..] == d;
  }

  /** Decimal digits of `n`, the inverse of `DigitsValue`. */
  function ShowNat(n: nat): (s: string)
    ensures |s| >= 1
    ensures forall i :: 0 <= i < |s| ==> '0' <= s[i] <= '9'
  {
    if n < 10 then [('0' as int + n) as char] else ShowNat(n / 10) + [('0' as int + n % 10) as char]
  }

  lemma {:induction false} ShowNatDigits(n: nat)
    ensures AllDigits(ShowNat(n)) && DigitsValue(ShowNat(n)) == n
  {
    var s := ShowNat(n);
    AsciiDigit(s[|s| - 1]);
    if n >= 10 {
      ShowNatDigits(n / 10);
      assert s[..|s| - 1] == ShowNat(n / 10);
    }
  }

  /** parseInt reads back every 32-bit value written in decimal. */
  lemma ParseIntShowNat(n: nat)
    requires n <= IntMax
    ensures ParseInt(ShowNat(n)) == Some(n)
    ensures ParseInt("+" + ShowNat(n)) == Some(n)
    ensures ParseInt("-" + ShowNat(n)) == Some(-(n as int))
  {
    ShowNatDigits(n);
    ParseIntDigits(ShowNat(n));
  }

  /** 2^31 overflows unsigned, while -2^31 is the least value read. */
  lemma ParseIntEdges()
    ensures ParseInt(ShowNat(IntMax + 1)) == None
    ensures ParseInt("-" + ShowNat(IntMax + 1)) == Some(IntMin)
  {
    ShowNatDigits(IntMax + 1);
    ParseIntDigits(ShowNat(IntMax + 1));
  }

  /** A fullwidth digit is a digit: `parseInt` reads U+FF15 as 5. */
  lemma FullwidthDigit()
    ensures ParseInt("\U{FF15}") == Some(5)
  {
    assert IsDigit('\U{FF15}') && DigitValue('\U{FF15}') == 5;
    assert AllDigits("\U{FF15}");
    assert DigitsValue("\U{FF15}") == DigitsValue("") * 10 + DigitValue('\U{FF15}');
  }
}
