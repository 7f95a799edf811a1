/** String helpers with Python's meaning: str.split on one character,
    os.path.basename, decimal digits and the `{n:02d}` format. */
module Text {
  import opened Wrappers

  /** `s.split(sep)` for a one-character separator: the pieces between separators, empty ones kept. */
  function Split(s: string, sep: char): (parts: seq<string>)
    ensures |parts| >= 1
    ensures forall i :: 0 <= i < |parts| ==> sep !in parts[i]
  {
    if |s| == 0 then [""]
    else if s[0] == sep then [""] + Split(s[1..], sep)
    else
      var rest := Split(s[1..], sep);
      [[s[0]] + rest[0]] + rest[1..]
  }

  /** `sep.join(parts)`. */
  function Join(parts: seq<string>, sep: char): string
  {
    if |parts| == 0 then ""
    else if |parts| == 1 then parts[0]
    else parts[0] + [sep] + Join(parts[1..], sep)
  }

  /** Splitting and joining back gives the original string. */
  lemma {:induction false} JoinSplit(s: string, sep: char)
    ensures Join(Split(s, sep), sep) == s
  {
    if |s| == 0 {
    } else if s[0] == sep {
      JoinSplit(s[1..], sep);
      assert s == [sep] + s[1..];
    } else {
      var rest := Split(s[1..], sep);
      JoinSplit(s[1..], sep);
      if |rest| == 1 {
        assert s == [s[0]] + s[1..];
      } else {
        assert Join(rest, sep) == rest[0] + [sep] + Join(rest[1..], sep);
        assert s == [s[0]] + s[1..];
      }
    }
  }

  /** Joining pieces that contain no separator and splitting again gives the pieces back. */
  lemma {:induction false} SplitJoin(parts: seq<string>, sep: char)
    requires |parts| >= 1
    requires forall i :: 0 <= i < |parts| ==> sep !in parts[i]
    ensures Split(Join(parts, sep), sep) == parts
    decreases |parts|, |parts[0]|
  {
    var p := parts[0];
    if |p| == 0 {
      if |parts| == 1 {
      } else {
        var tail := Join(parts[1..], sep);
        assert Join(parts, sep) == [sep] + tail;
        SplitJoin(parts[1..], sep);
        assert ([sep] + tail)[1..] == tail;
        assert [""] + parts[1..] == parts;
      }
    } else {
      var shorter := [p[1..]] + parts[1..];
      forall i | 0 <= i < |shorter| ensures sep !in shorter[i] {
        if i == 0 { assert forall c :: c in p[1..] ==> c in p; } else { assert shorter[i] == parts[i]; }
      }
      SplitJoin(shorter, sep);
      var whole := Join(parts, sep);
      assert p == [p[0]] + p[1..];
      if |parts| == 1 {
        assert whole == p;
        assert whole[1..] == Join(shorter, sep);
      } else {
        assert whole == p + [sep] + Join(parts[1..], sep);
        assert Join(shorter, sep) == p[1..] + [sep] + Join(parts[1..], sep);
        assert whole[1..] == Join(shorter, sep);
      }
      assert whole[0] == p[0] && p[0] != sep;
      var rest := Split(whole[1..], sep);
      assert rest == shorter;
      assert [[p[0]] + rest[0]] + rest[1..] == parts;
    }
  }

  /** `os.path.basename` for POSIX paths: what follows the last '/'. */
  function Basename(path: string): (name: string)
    ensures '/' !in name
  {
    var parts := Split(path, '/');
    parts[|parts| - 1]
  }

  /** The base name is the suffix of the path after its last '/' (the whole path if none). */
  lemma BasenameSuffix(path: string)
    ensures var k := |path| - |Basename(path)|;
      0 <= k <= |path| && path[k..] == Basename(path) && (k == 0 || path[k - 1] == '/')
  {
    JoinSplit(path, '/');
    BasenameIsSuffix(Split(path, '/'), '/');
  }

  lemma {:induction false} BasenameIsSuffix(parts: seq<string>, sep: char)
    requires |parts| >= 1
    ensures var s := Join(parts, sep); var k := |s| - |parts[|parts| - 1]|;
            0 <= k <= |s| && s[k..] == parts[|parts| - 1] && (k == 0 || s[k - 1] == sep)
  {
    if |parts| > 1 {
      BasenameIsSuffix(parts[1..], sep);
    }
  }

  predicate IsDigit(c: char) { '0' <= c <= '9' }

  predicate AllDigits(s: string) { forall i :: 0 <= i < |s| ==> IsDigit(s[i]) }

  function DigitChar(d: nat): (c: char)
    requires d <= 9
    ensures IsDigit(c) && c as int - '0' as int == d
  {
    ('0' as int + d) as char
  }

  /** The value of an ASCII decimal digit (0 for any other character). */
  function DigitValue(c: char): nat
  {
    if IsDigit(c) then c as int - '0' as int else 0
  }

  /** The number an ASCII decimal digit string denotes (leading zeros allowed). */
  function DigitsValue(s: string): nat
  {
    if |s| == 0 then 0
    else 10 * DigitsValue(s[..|s| - 1]) + DigitValue(s[|s| - 1])
  }

  function Pow10(k: nat): (p: nat)
    ensures p >= 1
  {
    if k == 0 then 1 else 10 * Pow10(k - 1)
  }

  /** A digit string of length k denotes a number below 10^k. */
  lemma {:induction false} DigitsValueBound(s: string)
    requires AllDigits(s)
    ensures DigitsValue(s) < Pow10(|s|)
  {
    if |s| > 0 {
      DigitsValueBound(s[..|s| - 1]);
    }
  }

  /** Two digit strings of the same length that denote the same number are equal. */
  lemma {:induction false} DigitsValueInjective(a: string, b: string)
    requires AllDigits(a) && AllDigits(b) && |a| == |b|
    requires DigitsValue(a) == DigitsValue(b)
    ensures a == b
  {
    if |a| > 0 {
      var n := |a| - 1;
      LastDigitSplit(DigitsValue(a[..n]), DigitValue(a[n]), DigitsValue(b[..n]), DigitValue(b[n]));
      assert AllDigits(a[..n]) && AllDigits(b[..n]);
      DigitsValueInjective(a[..n], b[..n]);
      assert a[n] == b[n];
      assert a == a[..n] + [a[n]];
      assert b == b[..n] + [b[n]];
    }
  }

  /** The last decimal digit and the rest of a number are determined by the number. */
  lemma LastDigitSplit(x: nat, dx: nat, y: nat, dy: nat)
    requires dx <= 9 && dy <= 9 && 10 * x + dx == 10 * y + dy
    ensures x == y && dx == dy
  {
  }

  /** `str(n)` for a natural number: its shortest decimal representation. */
  function Decimal(n: nat): (s: string)
    ensures 1 <= |s|
  {
    if n < 10 then [DigitChar(n)] else Decimal(n / 10) + [DigitChar(n % 10)]
  }

  /** The decimal representation of n is made of digits and denotes n. */
  lemma {:induction false} DecimalDigits(n: nat)
    ensures AllDigits(Decimal(n)) && DigitsValue(Decimal(n)) == n
  {
    if n >= 10 {
      DecimalDigits(n / 10);
      var s := Decimal(n);
      assert s[..|s| - 1] == Decimal(n / 10);
    }
  }

  /** A number below 10^w has at most w decimal digits. */
  lemma {:induction false} DecimalLength(n: nat, w: nat)
    ensures 1 <= w && n < Pow10(w) ==> |Decimal(n)| <= w
  {
    if 1 <= w && n < Pow10(w) && n >= 10 {
      DecimalLength(n / 10, w - 1);
    }
  }

  function Zeros(k: nat): (s: string)
    ensures |s| == k
  {
    if k == 0 then "" else Zeros(k - 1) + "0"
  }

  /** Prefixing zeros keeps a digit string a digit string and does not change the number. */
  lemma {:induction false} LeadingZeros(k: nat, s: string)
    requires AllDigits(s)
    ensures AllDigits(Zeros(k) + s) && DigitsValue(Zeros(k) + s) == DigitsValue(s)
    decreases k, |s|
  {
    var t := Zeros(k) + s;
    if |s| == 0 {
      if k > 0 {
        LeadingZeros(k - 1, s);
        assert t == Zeros(k - 1) + "0";
        assert t[..|t| - 1] == Zeros(k - 1) + s;
      }
    } else {
      var n := |s| - 1;
      assert t[..|t| - 1] == Zeros(k) + s[..n];
      assert t[|t| - 1] == s[n];
      LeadingZeros(k, s[..n]);
    }
  }

  /** `f'{n:0{w}d}'` for a natural number: zero-padded on the left to width w. */
  function ZeroPad(n: nat, w: nat): (s: string)
    ensures |s| >= w
  {
    var d := Decimal(n);
    Zeros(if w > |d| then w - |d| else 0) + d
  }

  /** The padded form is made of digits, denotes n, and is exactly w long when n fits in w digits. */
  lemma ZeroPadValue(n: nat, w: nat)
    ensures AllDigits(ZeroPad(n, w)) && DigitsValue(ZeroPad(n, w)) == n
    ensures 1 <= w && n < Pow10(w) ==> |ZeroPad(n, w)| == w
  {
    var d := Decimal(n);
    DecimalDigits(n);
    LeadingZeros(if w > |d| then w - |d| else 0, d);
    DecimalLength(n, w);
  }

  lemma ZeroPadZero()
    ensures ZeroPad(0, 2) == "00"
  {
    assert Decimal(0) == "0";
    assert Zeros(1) == "0";
  }

  /** Padding the number a digit string denotes back to its length gives the same string. */
  lemma ZeroPadDigits(s: string)
    requires 1 <= |s| && AllDigits(s)
    ensures ZeroPad(DigitsValue(s), |s|) == s
  {
    DigitsValueBound(s);
    ZeroPadValue(DigitsValue(s), |s|);
    DigitsValueInjective(ZeroPad(DigitsValue(s), |s|), s);
  }

  /** Python's `f'{n:02d}'` on any integer: a '-' sign counts towards the width of two. */
  function Format02(n: int): string
  {
    if n < 0 then "-" + Decimal(-n) else ZeroPad(n, 2)
  }

  /** `{n:02d}` is two digits denoting n for 0..99, starts with '-' below 0, and is at least
      three digits long from 100 on. */
  lemma Format02Shape(n: int)
    ensures 0 <= n < 100 ==> |Format02(n)| == 2 && AllDigits(Format02(n)) && DigitsValue(Format02(n)) == n
    ensures n < 0 ==> |Format02(n)| >= 2 && Format02(n)[0] == '-'
    ensures n >= 100 ==> |Format02(n)| >= 3
  {
    if n >= 0 {
      ZeroPadValue(n, 2);
      var z := ZeroPad(n, 2);
      DigitsValueBound(z);
      if |z| < 3 { assert Pow10(|z|) <= 100; }
    }
  }

  /** The number a fixed-width field of digits denotes, if it is all digits. */
  function ParseDigits(s: string): (r: Option<nat>)
    ensures r.Some? <==> |s| >= 1 && AllDigits(s)
  {
    if |s| >= 1 && AllDigits(s) then Some(DigitsValue(s)) else None
  }

  /** A parsed field fits its width and pads back to the same text. */
  lemma ParsedDigitsRebuild(s: string)
    requires ParseDigits(s).Some?
    ensures ParseDigits(s).value < Pow10(|s|) && ZeroPad(ParseDigits(s).value, |s|) == s
  {
    DigitsValueBound(s);
    ZeroPadDigits(s);
  }

  /** A number that fits in w >= 1 digits, padded to w digits, parses back to itself. */
  lemma ParseZeroPad(n: nat, w: nat)
    requires 1 <= w && n < Pow10(w)
    ensures ParseDigits(ZeroPad(n, w)) == Some(n)
  {
    ZeroPadValue(n, w);
  }
}
