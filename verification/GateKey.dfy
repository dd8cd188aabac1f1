/** The text that identifies a compatibility gate: `compatibilityGateKey` of
    systemtests/releasecontract/contract.go. */
module GateKey {
  const NUL: char := '\0'

  datatype CompatibilityGate = CompatibilityGate(provider: string, consumer: string, contract: string, version: int)

  // ----- decimal text -----

  function Digit(n: nat): char
    requires n < 10
  {
    "0123456789"[n]
  }

  function Digits(n: nat): (r: string)
    ensures r != "" && forall i | 0 <= i < |r| :: '0' <= r[i] <= '9'
  {
    if n < 10 then [Digit(n)] else Digits(n / 10) + [Digit(n % 10)]
  }

  function Itoa(v: int): string {
    if v < 0 then "-" + Digits(-v) else Digits(v)
  }

  lemma DigitsSplit(n: nat)
    ensures Digits(n) != "" && Digits(n)[|Digits(n)| - 1] == Digit(n % 10)
    ensures if n < 10 then |Digits(n)| == 1 else |Digits(n)| > 1 && Digits(n)[..|Digits(n)| - 1] == Digits(n / 10)
  {
  }

  lemma DigitInjective(m: nat, n: nat)
    requires m < 10 && n < 10 && Digit(m) == Digit(n)
    ensures m == n
  {
  }

  lemma {:induction false} DigitsInjective(m: nat, n: nat)
    requires Digits(m) == Digits(n)
    ensures m == n
  {
    hide Digits;
    DigitsSplit(m);
    DigitsSplit(n);
    DigitInjective(m % 10, n % 10);
    if m >= 10 && n >= 10 {
      DigitsInjective(m / 10, n / 10);
    }
  }

  lemma ItoaSign(v: int)
    ensures Itoa(v) != "" && (v < 0 <==> Itoa(v)[0] == '-')
  {
  }

  lemma ItoaInjective(v: int, w: int)
    requires Itoa(v) == Itoa(w)
    ensures v == w
  {
    ItoaSign(v);
    ItoaSign(w);
    if v < 0 && w < 0 {
      assert Digits(-v) == Itoa(v)[1..] == Digits(-w);
      DigitsInjective(-v, -w);
    } else if v >= 0 && w >= 0 {
      DigitsInjective(v, w);
    }
  }

  lemma ItoaHasNoNul(v: int)
    ensures NUL !in Itoa(v)
  {
  }

  // ----- the key -----

  function Join(a: string, b: string): string {
    a + [NUL] + b
  }

  function Key(g: CompatibilityGate): string {
    Join(g.provider, Join(g.consumer, Join(g.contract, Itoa(g.version))))
  }

  function Nuls(s: string): nat {
    if s == "" then 0 else Nuls(s[1..]) + (if s[0] == NUL then 1 else 0)
  }

  lemma {:induction false} NulsAdd(a: string, b: string)
    ensures Nuls(a + b) == Nuls(a) + Nuls(b)
  {
    if a == "" {
      assert a + b == b;
    } else {
      NulsAdd(a[1..], b);
      assert (a + b)[1..] == a[1..] + b;
    }
  }

  lemma {:induction false} NulsZero(s: string)
    ensures Nuls(s) == 0 <==> NUL !in s
  {
    if s != "" {
      NulsZero(s[1..]);
      assert s == [s[0]] + s[1..];
    }
  }

  lemma NulsJoin(a: string, b: string)
    ensures Nuls(Join(a, b)) == Nuls(a) + 1 + Nuls(b)
  {
    NulsAdd(a + [NUL], b);
    NulsAdd(a, [NUL]);
    assert Nuls([NUL]) == 1 + Nuls([NUL][1..]);
  }

  /** The first NUL ends a NUL-free field. */
  lemma SplitFirst(a: string, x: string, b: string, y: string)
    requires NUL !in a && NUL !in b && Join(a, x) == Join(b, y)
    ensures a == b && x == y
  {
    var s := Join(a, x);
    assert s[|a|] == NUL && s[|b|] == NUL;
    assert |a| == |b|;
    assert a == s[..|a|] && b == s[..|b|];
    assert x == s[|a| + 1..] && y == s[|b| + 1..];
  }

  /** The last NUL starts a NUL-free field. */
  lemma SplitLast(a: string, x: string, b: string, y: string)
    requires NUL !in x && NUL !in y && Join(a, x) == Join(b, y)
    ensures a == b && x == y
  {
    var s := Join(a, x);
    assert s[|a|] == NUL && s[|b|] == NUL;
    assert |a| == |b|;
    assert a == s[..|a|] && b == s[..|b|];
    assert x == s[|a| + 1..] && y == s[|b| + 1..];
  }

  ghost predicate PlainNames(g: CompatibilityGate) {
    NUL !in g.provider && NUL !in g.consumer
  }

  /** Gates whose provider and consumer are free of NUL have distinct keys, whatever the contract text. */
  lemma KeyInjective(g: CompatibilityGate, h: CompatibilityGate)
    requires PlainNames(g) && PlainNames(h) && Key(g) == Key(h)
    ensures g == h
  {
    hide Itoa, Join;
    var gv, hv := Itoa(g.version), Itoa(h.version);
    SplitFirst(g.provider, Join(g.consumer, Join(g.contract, gv)), h.provider, Join(h.consumer, Join(h.contract, hv)));
    SplitFirst(g.consumer, Join(g.contract, gv), h.consumer, Join(h.contract, hv));
    ItoaHasNoNul(g.version);
    ItoaHasNoNul(h.version);
    SplitLast(g.contract, gv, h.contract, hv);
    ItoaInjective(g.version, h.version);
  }

  lemma KeyNuls(g: CompatibilityGate)
    ensures Nuls(Key(g)) == 3 + Nuls(g.provider) + Nuls(g.consumer) + Nuls(g.contract)
  {
    hide Itoa, Join;
    var v := Itoa(g.version);
    ItoaHasNoNul(g.version);
    NulsZero(v);
    NulsJoin(g.contract, v);
    NulsJoin(g.consumer, Join(g.contract, v));
    NulsJoin(g.provider, Join(g.consumer, Join(g.contract, v)));
  }

  /** A gate with no NUL in any name shares its key with no other fields at all. */
  lemma KeyDeterminesFields(g: CompatibilityGate, h: CompatibilityGate)
    requires PlainNames(g) && NUL !in g.contract && Key(g) == Key(h)
    ensures g == h
  {
    hide Key, Nuls;
    KeyNuls(g);
    KeyNuls(h);
    NulsZero(g.provider);
    NulsZero(g.consumer);
    NulsZero(g.contract);
    NulsZero(h.provider);
    NulsZero(h.consumer);
    KeyInjective(g, h);
  }

  /** Other fields with the same key, when the contract text contains NUL: its first part moves over. */
  lemma KeyCollision(g: CompatibilityGate) returns (h: CompatibilityGate)
    requires NUL in g.contract
    ensures Key(h) == Key(g) && NUL in h.provider
  {
    var i :| 0 <= i < |g.contract| && g.contract[i] == NUL;
    var left, right := g.contract[..i], g.contract[i + 1..];
    assert g.contract == Join(left, right);
    h := CompatibilityGate(Join(g.provider, g.consumer), left, right, g.version);
    JoinAssociates(g.provider, g.consumer, Join(left, Join(right, Itoa(g.version))));
    JoinAssociates(left, right, Itoa(g.version));
    assert Join(g.provider, g.consumer)[|g.provider|] == NUL;
  }

  lemma JoinAssociates(a: string, b: string, c: string)
    ensures Join(Join(a, b), c) == Join(a, Join(b, c))
  {
    assert a + [NUL] + b + [NUL] + c == a + [NUL] + (b + [NUL] + c);
  }
}
