/** The text key of a node sequence: decimal ids joined by commas. Different
    sequences have different keys, so a set of keys is a set of paths. */
module PathSignature {

  function Digit(d: nat): char
    requires d < 10
  {
    "0123456789"[d]
  }

  function Digits(n: nat): (s: string)
    ensures s != []
  {
    if n < 10 then [Digit(n)] else Digits(n / 10) + [Digit(n % 10)]
  }

  function FormatInt(n: int): (s: string)
    ensures s != []
  {
    if n < 0 then "-" + Digits(-n) else Digits(n)
  }

  function Signature(ns: seq<int>): string {
    if ns == [] then ""
    else if |ns| == 1 then FormatInt(ns[0])
    else Signature(ns[..|ns| - 1]) + "," + FormatInt(ns[|ns| - 1])
  }

  /** The number that a decimal text denotes. */
  function Denoted(s: string): int {
    if s == [] then 0 else 10 * Denoted(s[..|s| - 1]) + (s[|s| - 1] as int - '0' as int)
  }

  lemma {:induction false} DigitsDenote(n: nat)
    ensures Denoted(Digits(n)) == n
  {
    var s := Digits(n);
    if n < 10 {
      assert s[..0] == [];
      assert Denoted([]) == 0;
    } else {
      DigitsDenote(n / 10);
      assert s[..|s| - 1] == Digits(n / 10) && s[|s| - 1] == Digit(n % 10);
    }
  }

  /** An id is written in decimal, with a sign if it is negative, and ids are joined by
      commas. */
  lemma SignatureWrites(ns: seq<int>, n: int)
    ensures ns != [] ==> Signature(ns + [n]) == Signature(ns) + "," + Signature([n])
    ensures n >= 0 ==> Denoted(Signature([n])) == n
    ensures n < 0 ==> Signature([n])[0] == '-' && Denoted(Signature([n])[1..]) == -n
  {
    assert (ns + [n])[..|ns|] == ns;
    DigitsDenote(if n < 0 then -n else n);
  }

  lemma {:induction false} DigitsPlain(n: nat)
    ensures ',' !in Digits(n) && '-' !in Digits(n)
  {
    if n >= 10 {
      DigitsPlain(n / 10);
    }
  }

  lemma {:induction false} DigitsInjective(m: nat, n: nat)
    requires Digits(m) == Digits(n)
    ensures m == n
  {
    var s := Digits(m);
    if m < 10 && n < 10 {
      assert s[0] == Digit(m) && s[0] == Digit(n);
    } else if m >= 10 && n >= 10 {
      assert s[..|s| - 1] == Digits(m / 10) && s[|s| - 1] == Digit(m % 10);
      assert s[..|s| - 1] == Digits(n / 10) && s[|s| - 1] == Digit(n % 10);
      DigitsInjective(m / 10, n / 10);
    }
  }

  lemma FormatInjective(m: int, n: int)
    requires FormatInt(m) == FormatInt(n)
    ensures m == n
  {
    DigitsPlain(if m < 0 then -m else m);
    DigitsPlain(if n < 0 then -n else n);
    if m < 0 && n < 0 {
      assert Digits(-m) == FormatInt(m)[1..] == FormatInt(n)[1..] == Digits(-n);
      DigitsInjective(-m, -n);
    } else if m >= 0 && n >= 0 {
      DigitsInjective(m, n);
    }
  }

  lemma FormatPlain(n: int)
    ensures ',' !in FormatInt(n)
  {
    DigitsPlain(if n < 0 then -n else n);
  }

  /** The text after the last comma determines the split. */
  lemma LastComma(x: string, u: string, y: string, v: string)
    requires x + "," + u == y + "," + v && ',' !in u && ',' !in v
    ensures x == y && u == v
  {
    var s := x + "," + u;
    assert s[|x|] == ',' && s[|y|] == ',';
    assert x == s[..|x|] && y == s[..|y|];
    assert u == s[|x| + 1..] && v == s[|y| + 1..];
  }

  lemma CommaInside(a: seq<int>)
    requires |a| >= 2
    ensures ',' in Signature(a)
  {
    var head := Signature(a[..|a| - 1]);
    assert Signature(a)[|head|] == ',';
  }

  /** A key is empty for no node, without comma for one, and with a comma for more. */
  lemma SameShape(a: seq<int>, b: seq<int>)
    requires Signature(a) == Signature(b)
    ensures (|a| == |b|) || (|a| >= 2 && |b| >= 2)
  {
    if |a| >= 2 {
      CommaInside(a);
    } else if |a| == 1 {
      FormatPlain(a[0]);
    }
    if |b| >= 2 {
      CommaInside(b);
    } else if |b| == 1 {
      FormatPlain(b[0]);
    }
  }

  lemma SplitLast(a: seq<int>, b: seq<int>)
    requires |a| >= 2 && |b| >= 2 && Signature(a) == Signature(b)
    ensures Signature(a[..|a| - 1]) == Signature(b[..|b| - 1]) && a[|a| - 1] == b[|b| - 1]
  {
    var m, n := |a| - 1, |b| - 1;
    FormatPlain(a[m]);
    FormatPlain(b[n]);
    LastComma(Signature(a[..m]), FormatInt(a[m]), Signature(b[..n]), FormatInt(b[n]));
    FormatInjective(a[m], b[n]);
  }

  lemma SnocEqual(a: seq<int>, b: seq<int>)
    requires a != [] && b != [] && a[..|a| - 1] == b[..|b| - 1] && a[|a| - 1] == b[|b| - 1]
    ensures a == b
  {
    assert a == a[..|a| - 1] + [a[|a| - 1]];
    assert b == b[..|b| - 1] + [b[|b| - 1]];
  }

  lemma ShortInjective(a: seq<int>, b: seq<int>)
    requires |a| == |b| <= 1 && Signature(a) == Signature(b)
    ensures a == b
  {
    if a != [] {
      FormatInjective(a[0], b[0]);
    }
  }

  /** Equal keys mean equal node sequences. */
  lemma {:induction false} SignatureInjective(a: seq<int>, b: seq<int>)
    requires Signature(a) == Signature(b)
    ensures a == b
    decreases |a|
  {
    SameShape(a, b);
    if |a| <= 1 {
      ShortInjective(a, b);
    } else {
      SplitLast(a, b);
      SignatureInjective(a[..|a| - 1], b[..|b| - 1]);
      SnocEqual(a, b);
    }
  }

  method BuildSignature(ns: seq<int>) returns (b: string)
    ensures b == Signature(ns)
  {
    b := "";
    for i := 0 to |ns|
      invariant b == Signature(ns[..i])
    {
      assert ns[..i + 1][..i] == ns[..i];
      if i > 0 {
        b := b + ",";
      }
      b := b + FormatInt(ns[i]);
      assert b == Signature(ns[..i + 1]);
    }
    assert ns[..|ns|] == ns;
  }
}
