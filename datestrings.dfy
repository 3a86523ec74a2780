/** `date.isoformat()` keys and the text order SQLite uses to compare them. */
module DateStrings {
  import opened Dates

  /** Text order under SQLite's default BINARY collation: code point by code
      point (the order UTF-8 bytes give), a proper prefix first. */
  predicate LexLe(a: string, b: string)
    decreases |a|
  {
    a == [] || (b != [] && (a[0] < b[0] || (a[0] == b[0] && LexLe(a[1..], b[1..]))))
  }

  function Pow10(w: nat): (p: nat)
    ensures p >= 1
  {
    if w == 0 then 1 else 10 * Pow10(w - 1)
  }

  function DigitChar(k: int): char
    requires 0 <= k < 10
  {
    (48 + k) as char
  }

  /** `n` written in decimal with zero padding to `w` digits, as `%0wd` does
      for a number below `10^w`. */
  function Digits(n: nat, w: nat): (s: string)
    ensures |s| == w
  {
    if w == 0 then [] else Digits(n / 10, w - 1) + [DigitChar(n % 10)]
  }

  /** `date.isoformat()`: "YYYY-MM-DD". */
  function Iso(x: Date): (s: string)
    requires Valid(x)
    ensures |s| == 10
  {
    Digits(x.year, 4) + ("-" + (Digits(x.month, 2) + ("-" + Digits(x.day, 2))))
  }

  lemma {:induction false} LexLeReflexive(s: string)
    ensures LexLe(s, s)
    decreases |s|
  {
    if s != [] {
      LexLeReflexive(s[1..]);
    }
  }

  /** Comparing two texts that start with prefixes of equal length: the
      prefixes decide unless they are equal, and then the rests do. */
  lemma {:induction false} LexLeConcat(a1: string, a2: string, b1: string, b2: string)
    requires |a1| == |b1|
    ensures LexLe(a1 + a2, b1 + b2) <==>
              (a1 != b1 && LexLe(a1, b1)) || (a1 == b1 && LexLe(a2, b2))
    decreases |a1|
  {
    if a1 != [] {
      assert (a1 + a2)[0] == a1[0] && (b1 + b2)[0] == b1[0];
      assert (a1 + a2)[1..] == a1[1..] + a2;
      assert (b1 + b2)[1..] == b1[1..] + b2;
      LexLeConcat(a1[1..], a2, b1[1..], b2);
      if a1[0] == b1[0] {
        assert a1 == b1 <==> a1[1..] == b1[1..] by {
          assert a1 == [a1[0]] + a1[1..] && b1 == [b1[0]] + b1[1..];
        }
      }
    } else {
      assert a1 + a2 == a2 && b1 + b2 == b2;
    }
  }

  /** Zero-padded numerals of one width compare like the numbers. */
  lemma {:induction false} DigitsOrder(a: nat, b: nat, w: nat)
    requires a < Pow10(w) && b < Pow10(w)
    ensures LexLe(Digits(a, w), Digits(b, w)) <==> a <= b
    ensures Digits(a, w) == Digits(b, w) <==> a == b
  {
    if w > 0 {
      DigitsOrder(a / 10, b / 10, w - 1);
      var ca, cb := [DigitChar(a % 10)], [DigitChar(b % 10)];
      LexLeConcat(Digits(a / 10, w - 1), ca, Digits(b / 10, w - 1), cb);
      assert LexLe(ca, cb) <==> a % 10 <= b % 10;
      assert Digits(a, w) == Digits(b, w) <==> Digits(a / 10, w - 1) == Digits(b / 10, w - 1) && ca == cb by {
        var pa, pb := Digits(a / 10, w - 1), Digits(b / 10, w - 1);
        if Digits(a, w) == Digits(b, w) {
          assert pa == Digits(a, w)[..w - 1] && pb == Digits(b, w)[..w - 1];
          assert ca[0] == Digits(a, w)[w - 1] && cb[0] == Digits(b, w)[w - 1];
        }
      }
    }
  }

  /** Two ISO keys compare as text exactly as their dates compare. */
  lemma IsoOrder(a: Date, b: Date)
    requires Valid(a) && Valid(b)
    ensures LexLe(Iso(a), Iso(b)) <==> Ordinal(a) <= Ordinal(b)
  {
    assert Pow10(2) == 100 && Pow10(4) == 10000;
    DigitsOrder(a.year, b.year, 4);
    DigitsOrder(a.month, b.month, 2);
    DigitsOrder(a.day, b.day, 2);
    var ma, mb := Digits(a.month, 2), Digits(b.month, 2);
    var da, db := Digits(a.day, 2), Digits(b.day, 2);
    var ra, rb := "-" + (ma + ("-" + da)), "-" + (mb + ("-" + db));
    LexLeConcat(Digits(a.year, 4), ra, Digits(b.year, 4), rb);
    LexLeConcat("-", ma + ("-" + da), "-", mb + ("-" + db));
    LexLeConcat(ma, "-" + da, mb, "-" + db);
    LexLeConcat("-", da, "-", db);
    OrdinalOrder(a, b);
  }

  /** The ISO key identifies the date. */
  lemma IsoInjective(a: Date, b: Date)
    requires Valid(a) && Valid(b)
    ensures Iso(a) == Iso(b) <==> a == b
  {
    if Iso(a) == Iso(b) {
      LexLeReflexive(Iso(a));
      IsoOrder(a, b);
      IsoOrder(b, a);
      OrdinalOrder(a, b);
    }
  }
}
