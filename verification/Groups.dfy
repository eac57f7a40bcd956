/** Repeated addition and the double-and-add ladder, in any group given up to an equivalence. */
module Groups {
  import opened Arithmetic

  datatype Group<!T> = Group(add: (T, T) -> T, same: (T, T) -> bool, member: T -> bool, neutral: T, negate: T -> T)

  /** Names the elements at which a law is used. */
  ghost predicate At<T>(a: T, b: T, c: T) { true }

  ghost predicate Equivalence<T(!new)>(g: Group<T>) {
    && (forall a {:trigger At(a, a, a)} :: g.member(a) ==> g.same(a, a))
    && (forall a, b {:trigger At(a, b, b)} :: g.member(a) && g.member(b) && g.same(a, b) ==> g.same(b, a))
    && (forall a, b, c {:trigger At(a, b, c)} ::
          g.member(a) && g.member(b) && g.member(c) && g.same(a, b) && g.same(b, c) ==> g.same(a, c))
  }

  ghost predicate Respects<T(!new)>(g: Group<T>) {
    && g.member(g.neutral)
    && (forall a, b {:trigger g.add(a, b)} :: g.member(a) && g.member(b) ==> g.member(g.add(a, b)))
    && (forall a {:trigger g.negate(a)} :: g.member(a) ==> g.member(g.negate(a)))
    && (forall a, a', b, b' {:trigger At(a, a', a'), At(b, b', b')} ::
          g.member(a) && g.member(a') && g.member(b) && g.member(b') && g.same(a, a') && g.same(b, b')
          ==> g.same(g.add(a, b), g.add(a', b')))
  }

  ghost predicate NeutralAndInverse<T(!new)>(g: Group<T>) {
    && (forall a {:trigger At(a, a, a)} :: g.member(a) ==> g.same(g.add(a, g.neutral), a))
    && (forall a {:trigger At(a, a, a)} :: g.member(a) ==> g.same(g.add(a, g.negate(a)), g.neutral))
    && (forall a, b {:trigger At(a, b, b)} :: g.member(a) && g.member(b) ==> g.same(g.add(a, b), g.add(b, a)))
  }

  ghost predicate Associative<T(!new)>(g: Group<T>) {
    forall a, b, c {:trigger At(a, b, c)} ::
      g.member(a) && g.member(b) && g.member(c) ==> g.same(g.add(g.add(a, b), c), g.add(a, g.add(b, c)))
  }

  ghost predicate Laws<T(!new)>(g: Group<T>) {
    Equivalence(g) && Respects(g) && NeutralAndInverse(g) && Associative(g)
  }

  lemma Trans<T(!new)>(g: Group<T>, a: T, b: T, c: T)
    requires Equivalence(g) && g.member(a) && g.member(b) && g.member(c) && g.same(a, b) && g.same(b, c)
    ensures g.same(a, c)
  {
    assert At(a, b, c);
  }

  lemma Sym<T(!new)>(g: Group<T>, a: T, b: T)
    requires Equivalence(g) && g.member(a) && g.member(b) && g.same(a, b)
    ensures g.same(b, a)
  {
    assert At(a, b, b);
  }

  lemma Refl<T(!new)>(g: Group<T>, a: T)
    requires Equivalence(g) && g.member(a)
    ensures g.same(a, a)
  {
    assert At(a, a, a);
  }

  lemma Add<T(!new)>(g: Group<T>, a: T, a': T, b: T, b': T)
    requires Respects(g) && g.member(a) && g.member(a') && g.member(b) && g.member(b') && g.same(a, a') && g.same(b, b')
    ensures g.same(g.add(a, b), g.add(a', b'))
  {
    assert At(a, a', a') && At(b, b', b');
  }

  lemma Assoc<T(!new)>(g: Group<T>, a: T, b: T, c: T)
    requires Laws(g) && g.member(a) && g.member(b) && g.member(c)
    ensures g.same(g.add(g.add(a, b), c), g.add(a, g.add(b, c)))
    ensures g.same(g.add(a, g.add(b, c)), g.add(g.add(a, b), c))
  {
    assert At(a, b, c);
    Sym(g, g.add(g.add(a, b), c), g.add(a, g.add(b, c)));
  }

  lemma Neutral<T(!new)>(g: Group<T>, a: T)
    requires Laws(g) && g.member(a)
    ensures g.same(g.add(a, g.neutral), a) && g.same(a, g.add(a, g.neutral))
    ensures g.same(g.add(g.neutral, a), a) && g.same(a, g.add(g.neutral, a))
  {
    assert At(a, a, a) && At(g.neutral, a, a);
    Trans(g, g.add(g.neutral, a), g.add(a, g.neutral), a);
    Sym(g, g.add(a, g.neutral), a);
    Sym(g, g.add(g.neutral, a), a);
  }

  // ----- repeated addition -----

  ghost function Repeat<T(!new)>(g: Group<T>, a: T, n: nat): T {
    if n == 0 then g.neutral else g.add(Repeat(g, a, n - 1), a)
  }

  lemma {:induction false} RepeatMember<T(!new)>(g: Group<T>, a: T, n: nat)
    requires Respects(g) && g.member(a)
    ensures g.member(Repeat(g, a, n))
  {
    if n > 0 {
      RepeatMember(g, a, n - 1);
    }
  }

  lemma {:induction false} RepeatAdd<T(!new)>(g: Group<T>, a: T, m: nat, n: nat)
    requires Laws(g) && g.member(a)
    ensures g.same(Repeat(g, a, m + n), g.add(Repeat(g, a, m), Repeat(g, a, n)))
    decreases n
  {
    var x := Repeat(g, a, m);
    RepeatMember(g, a, m);
    if n == 0 {
      Neutral(g, x);
    } else {
      var y, z := Repeat(g, a, n - 1), Repeat(g, a, m + n - 1);
      RepeatMember(g, a, n - 1);
      RepeatMember(g, a, m + n - 1);
      RepeatAdd(g, a, m, n - 1);
      Refl(g, a);
      Add(g, z, g.add(x, y), a, a);
      Assoc(g, x, y, a);
      Trans(g, g.add(z, a), g.add(g.add(x, y), a), g.add(x, g.add(y, a)));
    }
  }

  lemma {:induction false} RepeatSame<T(!new)>(g: Group<T>, a: T, b: T, n: nat)
    requires Laws(g) && g.member(a) && g.member(b) && g.same(a, b)
    ensures g.same(Repeat(g, a, n), Repeat(g, b, n))
  {
    if n == 0 {
      Refl(g, g.neutral);
    } else {
      RepeatSame(g, a, b, n - 1);
      RepeatMember(g, a, n - 1);
      RepeatMember(g, b, n - 1);
      Add(g, Repeat(g, a, n - 1), Repeat(g, b, n - 1), a, b);
    }
  }

  lemma {:induction false} RepeatRepeat<T(!new)>(g: Group<T>, a: T, m: nat, n: nat)
    requires Laws(g) && g.member(a)
    ensures g.same(Repeat(g, Repeat(g, a, m), n), Repeat(g, a, m * n))
    decreases n
  {
    var x := Repeat(g, a, m);
    RepeatMember(g, a, m);
    if n == 0 {
      Refl(g, g.neutral);
    } else {
      var y, z := Repeat(g, x, n - 1), Repeat(g, a, m * (n - 1));
      RepeatMember(g, x, n - 1);
      RepeatMember(g, a, m * (n - 1));
      RepeatRepeat(g, a, m, n - 1);
      Refl(g, x);
      Add(g, y, z, x, x);
      RepeatAdd(g, a, m * (n - 1), m);
      assert m * (n - 1) + m == m * n;
      RepeatMember(g, a, m * n);
      Sym(g, Repeat(g, a, m * n), g.add(z, x));
      Trans(g, g.add(y, x), g.add(z, x), Repeat(g, a, m * n));
    }
  }

  // ----- double and add -----

  /** The ladder: the running result, the current double and the remaining scalar. */
  ghost function Ladder<T(!new)>(g: Group<T>, result: T, addend: T, n: nat): T
    decreases n
  {
    if n == 0 then result
    else Ladder(g, if n % 2 == 1 then g.add(result, addend) else result, g.add(addend, addend), n / 2)
  }

  lemma {:induction false} LadderMember<T(!new)>(g: Group<T>, result: T, addend: T, n: nat)
    requires Respects(g) && g.member(result) && g.member(addend)
    ensures g.member(Ladder(g, result, addend, n))
    decreases n
  {
    if n > 0 {
      LadderMember(g, if n % 2 == 1 then g.add(result, addend) else result, g.add(addend, addend), n / 2);
    }
  }

  /** Doubling the addend halves the count. */
  lemma {:induction false} RepeatDouble<T(!new)>(g: Group<T>, a: T, n: nat)
    requires Laws(g) && g.member(a)
    ensures g.same(Repeat(g, g.add(a, a), n), Repeat(g, a, 2 * n))
  {
    Neutral(g, a);
    Refl(g, a);
    var two := Repeat(g, a, 2);
    assert two == g.add(g.add(g.neutral, a), a) by {
      assert Repeat(g, a, 1) == g.add(Repeat(g, a, 0), a);
    }
    Add(g, a, g.add(g.neutral, a), a, a);
    RepeatMember(g, a, 2);
    RepeatSame(g, g.add(a, a), two, n);
    RepeatRepeat(g, a, 2, n);
    RepeatMember(g, g.add(a, a), n);
    RepeatMember(g, two, n);
    RepeatMember(g, a, 2 * n);
    Trans(g, Repeat(g, g.add(a, a), n), Repeat(g, two, n), Repeat(g, a, 2 * n));
  }

  lemma {:induction false} OneMore<T(!new)>(g: Group<T>, r: T, a: T, n: nat)
    requires Laws(g) && g.member(r) && g.member(a)
    ensures g.same(g.add(g.add(r, a), Repeat(g, a, n)), g.add(r, Repeat(g, a, n + 1)))
  {
    var x := Repeat(g, a, n);
    RepeatMember(g, a, n);
    RepeatMember(g, a, 1);
    RepeatMember(g, a, n + 1);
    assert Repeat(g, a, 1) == g.add(g.neutral, a) by { assert Repeat(g, a, 0) == g.neutral; }
    Neutral(g, a);
    Refl(g, x);
    Refl(g, r);
    Add(g, a, Repeat(g, a, 1), x, x);
    RepeatAdd(g, a, 1, n);
    Sym(g, Repeat(g, a, n + 1), g.add(Repeat(g, a, 1), x));
    Trans(g, g.add(a, x), g.add(Repeat(g, a, 1), x), Repeat(g, a, n + 1));
    Add(g, r, r, g.add(a, x), Repeat(g, a, n + 1));
    Assoc(g, r, a, x);
    Trans(g, g.add(g.add(r, a), x), g.add(r, g.add(a, x)), g.add(r, Repeat(g, a, n + 1)));
  }

  /** The ladder adds the addend to the result as often as the scalar says. */
  lemma {:induction false} LadderRepeats<T(!new)>(g: Group<T>, result: T, addend: T, n: nat)
    requires Laws(g) && g.member(result) && g.member(addend)
    ensures g.same(Ladder(g, result, addend, n), g.add(result, Repeat(g, addend, n)))
    decreases n
  {
    if n == 0 {
      Neutral(g, result);
    } else {
      var r, d, h := if n % 2 == 1 then g.add(result, addend) else result, g.add(addend, addend), n / 2;
      LadderRepeats(g, r, d, h);
      LadderMember(g, r, d, h);
      RepeatMember(g, d, h);
      RepeatMember(g, addend, 2 * h);
      RepeatMember(g, addend, n);
      RepeatDouble(g, addend, h);
      Refl(g, r);
      Add(g, r, r, Repeat(g, d, h), Repeat(g, addend, 2 * h));
      var l, x, y, z := Ladder(g, r, d, h), g.add(r, Repeat(g, d, h)), g.add(r, Repeat(g, addend, 2 * h)), g.add(result, Repeat(g, addend, n));
      Trans(g, l, x, y);
      if n % 2 == 1 {
        OneMore(g, result, addend, 2 * h);
        Trans(g, l, y, z);
      }
    }
  }

  lemma {:induction false} LadderFromNeutral<T(!new)>(g: Group<T>, a: T, n: nat)
    requires Laws(g) && g.member(a)
    ensures g.member(Ladder(g, g.neutral, a, n)) && g.same(Ladder(g, g.neutral, a, n), Repeat(g, a, n))
  {
    LadderRepeats(g, g.neutral, a, n);
    LadderMember(g, g.neutral, a, n);
    RepeatMember(g, a, n);
    Neutral(g, Repeat(g, a, n));
    Trans(g, Ladder(g, g.neutral, a, n), g.add(g.neutral, Repeat(g, a, n)), Repeat(g, a, n));
  }

  // ----- elements of finite order -----

  /** `q` is the order of `a`: the least positive count at which repetition returns to neutral. */
  /** The variables of double-and-add. */
  datatype Turn<T> = Turn(result: T, addend: T, rest: nat)

  ghost function NextTurn<T(!new)>(g: Group<T>, t: Turn<T>): Turn<T> {
    Turn(if t.rest % 2 == 1 then g.add(t.result, t.addend) else t.result, g.add(t.addend, t.addend), t.rest / 2)
  }

  /** The variables after `k` turns of the loop. */
  ghost function Turns<T(!new)>(g: Group<T>, a: T, n: nat, k: nat): Turn<T> {
    if k == 0 then Turn(g.neutral, a, n) else NextTurn(g, Turns(g, a, n, k - 1))
  }

  lemma {:induction false} TurnsMember<T(!new)>(g: Group<T>, a: T, n: nat, k: nat)
    requires Respects(g) && g.member(a)
    ensures g.member(Turns(g, a, n, k).result) && g.member(Turns(g, a, n, k).addend)
  {
    if k > 0 {
      TurnsMember(g, a, n, k - 1);
    }
  }

  /** The next bit of a number. */
  lemma NextBit(n: nat, p: nat)
    requires p > 0
    ensures n / (2 * p) == n / p / 2 && n % (2 * p) == n % p + (if n / p % 2 == 1 then p else 0)
  {
    var q, r := n / p, n % p;
    var bit := q % 2;
    assert n == p * q + r && q == 2 * (q / 2) + bit;
    assert p * q == (2 * p) * (q / 2) + p * bit;
    assert p * bit == if bit == 1 then p else 0;
    RemainderUnique(2 * p, q / 2, p * bit + r);
  }

  /** The sum of two multiples, given up to equality. */
  lemma SumOfMultiples<T(!new)>(g: Group<T>, a: T, x: T, y: T, m: nat, n: nat)
    requires Laws(g) && g.member(a) && g.member(x) && g.member(y)
    requires g.same(x, Repeat(g, a, m)) && g.same(y, Repeat(g, a, n))
    ensures g.member(g.add(x, y)) && g.same(g.add(x, y), Repeat(g, a, m + n))
  {
    var u, v, w := Repeat(g, a, m), Repeat(g, a, n), Repeat(g, a, m + n);
    RepeatMember(g, a, m);
    RepeatMember(g, a, n);
    RepeatMember(g, a, m + n);
    Add(g, x, u, y, v);
    RepeatAdd(g, a, m, n);
    Sym(g, w, g.add(u, v));
    Trans(g, g.add(x, y), g.add(u, v), w);
  }

  lemma TurnMultiples<T(!new)>(g: Group<T>, a: T, n: nat, p: nat, t: Turn<T>)
    requires Laws(g) && g.member(a) && g.member(t.result) && g.member(t.addend) && p > 0
    requires t.rest == n / p && g.same(t.result, Repeat(g, a, n % p)) && g.same(t.addend, Repeat(g, a, p))
    ensures var next := NextTurn(g, t);
            && next.rest == n / (2 * p)
            && g.same(next.result, Repeat(g, a, n % (2 * p))) && g.same(next.addend, Repeat(g, a, 2 * p))
  {
    NextBit(n, p);
    SumOfMultiples(g, a, t.addend, t.addend, p, p);
    SumOfMultiples(g, a, t.result, t.addend, n % p, p);
  }

  /** After `k` turns the result is the multiple by the low `k` bits and the addend the one by 2^k. */
  lemma {:induction false} TurnsMultiples<T(!new)>(g: Group<T>, a: T, n: nat, k: nat)
    requires Laws(g) && g.member(a)
    ensures var t := Turns(g, a, n, k);
            && t.rest == n / Pow2(k)
            && g.same(t.result, Repeat(g, a, n % Pow2(k))) && g.same(t.addend, Repeat(g, a, Pow2(k)))
  {
    if k == 0 {
      Refl(g, g.neutral);
      Neutral(g, a);
      assert Repeat(g, a, 1) == g.add(g.neutral, a);
    } else {
      TurnsMultiples(g, a, n, k - 1);
      TurnsMember(g, a, n, k - 1);
      TurnMultiples(g, a, n, Pow2(k - 1), Turns(g, a, n, k - 1));
    }
  }

  ghost predicate HasOrder<T(!new)>(g: Group<T>, a: T, q: nat) {
    && q > 0
    && g.same(Repeat(g, a, q), g.neutral)
    && forall n {:trigger Repeat(g, a, n)} :: 0 < n < q ==> !g.same(Repeat(g, a, n), g.neutral)
  }

  lemma {:induction false} RepeatNeutral<T(!new)>(g: Group<T>, n: nat)
    requires Laws(g)
    ensures g.same(Repeat(g, g.neutral, n), g.neutral)
  {
    if n == 0 {
      Refl(g, g.neutral);
    } else {
      var x := Repeat(g, g.neutral, n - 1);
      RepeatNeutral(g, n - 1);
      RepeatMember(g, g.neutral, n - 1);
      Neutral(g, x);
      Trans(g, g.add(x, g.neutral), x, g.neutral);
    }
  }

  lemma {:induction false} MultipleOfOrder<T(!new)>(g: Group<T>, a: T, q: nat, k: nat)
    requires Laws(g) && g.member(a) && HasOrder(g, a, q)
    ensures g.same(Repeat(g, a, q * k), g.neutral)
  {
    var u, y := Repeat(g, a, q), Repeat(g, a, q * k);
    var z := Repeat(g, u, k);
    RepeatMember(g, a, q);
    RepeatMember(g, a, q * k);
    RepeatMember(g, u, k);
    RepeatMember(g, g.neutral, k);
    RepeatRepeat(g, a, q, k);
    Sym(g, z, y);
    RepeatSame(g, u, g.neutral, k);
    RepeatNeutral(g, k);
    Trans(g, z, Repeat(g, g.neutral, k), g.neutral);
    Trans(g, y, z, g.neutral);
  }

  /** Counts may be reduced modulo the order. */
  lemma {:induction false} RepeatModulo<T(!new)>(g: Group<T>, a: T, q: nat, r: nat, k: nat)
    requires Laws(g) && g.member(a) && HasOrder(g, a, q)
    ensures g.same(Repeat(g, a, r + q * k), Repeat(g, a, r))
  {
    var x, y := Repeat(g, a, r), Repeat(g, a, q * k);
    RepeatMember(g, a, r);
    RepeatMember(g, a, q * k);
    RepeatMember(g, a, r + q * k);
    MultipleOfOrder(g, a, q, k);
    RepeatAdd(g, a, r, q * k);
    Refl(g, x);
    Add(g, x, x, y, g.neutral);
    Neutral(g, x);
    Trans(g, g.add(x, y), g.add(x, g.neutral), x);
    Trans(g, Repeat(g, a, r + q * k), g.add(x, y), x);
  }

  lemma {:induction false} CancelLeft<T(!new)>(g: Group<T>, x: T, y: T)
    requires Laws(g) && g.member(x) && g.member(y) && g.same(x, g.add(x, y))
    ensures g.same(y, g.neutral)
  {
    var n := g.negate(x);
    assert At(x, x, x) && At(n, x, x) && At(x, n, n);
    Trans(g, g.add(n, x), g.add(x, n), g.neutral);
    Refl(g, n);
    Refl(g, y);
    Add(g, n, n, x, g.add(x, y));
    Assoc(g, n, x, y);
    Trans(g, g.add(n, x), g.add(n, g.add(x, y)), g.add(g.add(n, x), y));
    Add(g, g.add(n, x), g.neutral, y, y);
    Neutral(g, y);
    Trans(g, g.add(g.add(n, x), y), g.add(g.neutral, y), y);
    Trans(g, g.add(n, x), g.add(g.add(n, x), y), y);
    Sym(g, g.add(n, x), y);
    Trans(g, y, g.add(n, x), g.neutral);
  }

  /** Below the order, equal repetitions have equal counts. */
  lemma {:induction false} RepeatInjective<T(!new)>(g: Group<T>, a: T, q: nat, m: nat, n: nat)
    requires Laws(g) && g.member(a) && HasOrder(g, a, q) && m <= n < q
    requires g.same(Repeat(g, a, m), Repeat(g, a, n))
    ensures m == n
  {
    var x, y := Repeat(g, a, m), Repeat(g, a, n - m);
    RepeatMember(g, a, m);
    RepeatMember(g, a, n);
    RepeatMember(g, a, n - m);
    RepeatAdd(g, a, m, n - m);
    Trans(g, x, Repeat(g, a, n), g.add(x, y));
    CancelLeft(g, x, y);
  }

  /** The equation that a verifier tests, on any representation of the two points. */
  lemma {:induction false} SignatureEquation<T(!new)>(g: Group<T>, b: T, q: nat, a: nat, r: nat, h: nat, s: nat, k: nat, pr: T, pa: T)
    requires Laws(g) && g.member(b) && HasOrder(g, b, q) && g.member(pr) && g.member(pa)
    requires g.same(pr, Repeat(g, b, r)) && g.same(pa, Repeat(g, b, a))
    requires r + a * h == s + q * k
    ensures g.same(Repeat(g, b, s), g.add(pr, Repeat(g, pa, h)))
  {
    var x, y, z := Repeat(g, b, s + q * k), Repeat(g, b, r), Repeat(g, b, a * h);
    RepeatMember(g, b, s);
    RepeatMember(g, b, s + q * k);
    RepeatMember(g, b, r);
    RepeatMember(g, b, a * h);
    RepeatMember(g, pa, h);
    RepeatModulo(g, b, q, s, k);
    Sym(g, x, Repeat(g, b, s));
    RepeatAdd(g, b, r, a * h);
    Trans(g, Repeat(g, b, s), x, g.add(y, z));
    RepeatOfSame(g, pa, b, a, h);
    Sym(g, pr, y);
    Add(g, y, pr, z, Repeat(g, pa, h));
    Trans(g, Repeat(g, b, s), g.add(y, z), g.add(pr, Repeat(g, pa, h)));
  }

  lemma {:induction false} RepeatOfSame<T(!new)>(g: Group<T>, x: T, b: T, a: nat, h: nat)
    requires Laws(g) && g.member(b) && g.member(x) && g.same(x, Repeat(g, b, a))
    ensures g.same(Repeat(g, b, a * h), Repeat(g, x, h))
  {
    RepeatMember(g, b, a);
    RepeatMember(g, b, a * h);
    RepeatMember(g, x, h);
    RepeatMember(g, Repeat(g, b, a), h);
    RepeatSame(g, x, Repeat(g, b, a), h);
    RepeatRepeat(g, b, a, h);
    Trans(g, Repeat(g, x, h), Repeat(g, Repeat(g, b, a), h), Repeat(g, b, a * h));
    Sym(g, Repeat(g, x, h), Repeat(g, b, a * h));
  }

  /** The same equation, with both multiples computed by the ladder. */
  lemma {:induction false} LadderEquation<T(!new)>(g: Group<T>, b: T, q: nat, a: nat, r: nat, h: nat, s: nat, k: nat, pr: T, pa: T)
    requires Laws(g) && g.member(b) && HasOrder(g, b, q) && g.member(pr) && g.member(pa)
    requires g.same(pr, Repeat(g, b, r)) && g.same(pa, Repeat(g, b, a))
    requires r + a * h == s + q * k
    ensures g.same(Ladder(g, g.neutral, b, s), g.add(pr, Ladder(g, g.neutral, pa, h)))
  {
    SignatureEquation(g, b, q, a, r, h, s, k, pr, pa);
    LadderFromNeutral(g, b, s);
    LadderFromNeutral(g, pa, h);
    RepeatMember(g, b, s);
    RepeatMember(g, pa, h);
    var x, u, v := Ladder(g, g.neutral, b, s), Ladder(g, g.neutral, pa, h), Repeat(g, pa, h);
    Refl(g, pr);
    Sym(g, u, v);
    Add(g, pr, pr, v, u);
    Trans(g, x, Repeat(g, b, s), g.add(pr, v));
    Trans(g, x, g.add(pr, v), g.add(pr, u));
  }

  /** Two scalars below the order whose multiples meet are equal. */
  lemma {:induction false} LadderInjective<T(!new)>(g: Group<T>, b: T, q: nat, m: nat, n: nat, right: T)
    requires Laws(g) && g.member(b) && HasOrder(g, b, q) && g.member(right) && m < q && n < q
    requires g.same(Ladder(g, g.neutral, b, m), right) && g.same(Ladder(g, g.neutral, b, n), right)
    ensures m == n
  {
    LadderFromNeutral(g, b, m);
    LadderFromNeutral(g, b, n);
    RepeatMember(g, b, m);
    RepeatMember(g, b, n);
    var x, y, u, v := Ladder(g, g.neutral, b, m), Repeat(g, b, m), Ladder(g, g.neutral, b, n), Repeat(g, b, n);
    Sym(g, x, y);
    Sym(g, u, right);
    Trans(g, y, x, right);
    Trans(g, y, right, u);
    Trans(g, y, u, v);
    Sym(g, y, v);
    if m <= n {
      RepeatInjective(g, b, q, m, n);
    } else {
      RepeatInjective(g, b, q, n, m);
    }
  }

  // ----- equations -----

  lemma SumOfSame<T(!new)>(g: Group<T>, r: T, x: T, y: T)
    requires Laws(g) && g.member(r) && g.member(x) && g.member(y) && g.same(x, y)
    ensures g.member(g.add(r, x)) && g.member(g.add(r, y)) && g.same(g.add(r, x), g.add(r, y))
  {
    Refl(g, r);
    Add(g, r, r, x, y);
  }

  /** Replacing both sides by equals keeps an equation. */
  lemma SameSides<T(!new)>(g: Group<T>, x: T, x': T, y: T, y': T)
    requires Laws(g) && g.member(x) && g.member(x') && g.member(y) && g.member(y') && g.same(x, x') && g.same(y, y')
    ensures g.same(x, y) <==> g.same(x', y')
  {
    Sym(g, x, x');
    Sym(g, y, y');
    if g.same(x, y) {
      Trans(g, x', x, y);
      Trans(g, x', y, y');
    }
    if g.same(x', y') {
      Trans(g, x, x', y');
      Trans(g, x, y', y);
    }
  }

  /** Equal sums with one summand have equal other summands. */
  lemma {:induction false} CancelSum<T(!new)>(g: Group<T>, r: T, x: T, y: T)
    requires Laws(g) && g.member(r) && g.member(x) && g.member(y) && g.same(g.add(r, x), g.add(r, y))
    ensures g.same(x, y)
  {
    var n := g.negate(r);
    Refl(g, n);
    Add(g, n, n, g.add(r, x), g.add(r, y));
    Undo(g, r, x);
    Undo(g, r, y);
    Sym(g, g.add(n, g.add(r, x)), x);
    Trans(g, x, g.add(n, g.add(r, x)), g.add(n, g.add(r, y)));
    Trans(g, x, g.add(n, g.add(r, y)), y);
  }

  lemma {:induction false} Undo<T(!new)>(g: Group<T>, r: T, x: T)
    requires Laws(g) && g.member(r) && g.member(x)
    ensures g.same(g.add(g.negate(r), g.add(r, x)), x)
  {
    var n := g.negate(r);
    assert At(r, r, r) && At(n, r, r);
    Trans(g, g.add(n, r), g.add(r, n), g.neutral);
    Refl(g, x);
    Add(g, g.add(n, r), g.neutral, x, x);
    Assoc(g, n, r, x);
    Neutral(g, x);
    Trans(g, g.add(n, g.add(r, x)), g.add(g.add(n, r), x), g.add(g.neutral, x));
    Trans(g, g.add(n, g.add(r, x)), g.add(g.neutral, x), x);
  }

  /** Two counts below the order of `a` that give one sum with `r` are equal. */
  lemma {:induction false} CommonSum<T(!new)>(g: Group<T>, r: T, a: T, q: nat, m: nat, n: nat, sum: T)
    requires Laws(g) && g.member(r) && g.member(a) && g.member(sum) && HasOrder(g, a, q) && m < q && n < q
    requires g.same(sum, g.add(r, Repeat(g, a, m))) && g.same(sum, g.add(r, Repeat(g, a, n)))
    ensures m == n
  {
    var x, y := Repeat(g, a, m), Repeat(g, a, n);
    RepeatMember(g, a, m);
    RepeatMember(g, a, n);
    Sym(g, sum, g.add(r, x));
    Trans(g, g.add(r, x), sum, g.add(r, y));
    CancelSum(g, r, x, y);
    Sym(g, x, y);
    if m <= n {
      RepeatInjective(g, a, q, m, n);
    } else {
      RepeatInjective(g, a, q, n, m);
    }
  }
}
