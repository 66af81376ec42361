/** 64-bit two's complement: the value a machine integer holds after an operation whose
    exact result is n. */
module Words {

  const WORD := 0x1_0000_0000_0000_0000
  const HALF := 0x8000_0000_0000_0000

  predicate Fits(n: int) {
    -HALF <= n < HALF
  }

  /** Drops whole words until the number fits. */
  function Signed(n: int): int
    decreases if n < 0 then -n - 1 else n
  {
    if n >= HALF then Signed(n - WORD)
    else if n < -HALF then Signed(n + WORD)
    else n
  }

  lemma {:induction false} SignedFits(n: int)
    ensures Fits(Signed(n))
    ensures Fits(n) <==> Signed(n) == n
    decreases if n < 0 then -n - 1 else n
  {
    if n >= HALF {
      SignedFits(n - WORD);
    } else if n < -HALF {
      SignedFits(n + WORD);
    }
  }

  /** Signed forgets whole words and nothing else. */
  lemma {:induction false} SignedShift(n: int, k: int)
    ensures Signed(n + k * WORD) == Signed(n)
    decreases if k < 0 then -k else k
  {
    if k > 0 {
      SignedShift(n, k - 1);
      var m := n + (k - 1) * WORD;
      assert n + k * WORD == m + WORD;
    } else if k < 0 {
      SignedShift(n, k + 1);
      var m := n + (k + 1) * WORD;
      assert n + k * WORD == m - WORD;
    }
  }

  lemma {:induction false} SignedApart(n: int) returns (k: int)
    ensures Signed(n) == n + k * WORD
    decreases if n < 0 then -n - 1 else n
  {
    if n >= HALF {
      k := SignedApart(n - WORD);
      k := k - 1;
    } else if n < -HALF {
      k := SignedApart(n + WORD);
      k := k + 1;
    } else {
      k := 0;
    }
  }

  /** Wrapping early or late makes no difference. */
  lemma SignedAdd(a: int, b: int)
    ensures Signed(Signed(a) + b) == Signed(a + b)
  {
    var k := SignedApart(a);
    SignedShift(a + b, k);
    assert Signed(a) + b == (a + b) + k * WORD;
  }

  /** Adding a wrapped difference arrives exactly. */
  lemma SignedStep(from: int, to: int)
    requires Fits(to)
    ensures Signed(from + Signed(to - from)) == to
  {
    SignedAdd(to - from, from);
    SignedFits(to);
  }
}
