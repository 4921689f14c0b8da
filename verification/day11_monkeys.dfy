/** Day 11: monkeys passing items according to worry levels
    (day-11/src/main.rs). Parsing the monkey descriptions and the progress
    report on stderr are left out; worry levels are unbounded integers
    rather than `i64`, and `num::integer::lcm` is replaced by the `Lcm`
    defined here. */
module Day11Monkeys {
  import opened Wrappers
  import opened Arithmetic

  datatype Operand = Old | Literal(value: int)
  datatype Expr = Add(left: Operand, right: Operand) | Multiply(left: Operand, right: Operand)

  /** `Operand::evaluate`. */
  function EvalOperand(a: Operand, worry: int): (r: int)
    ensures a.Old? ==> r == worry
    ensures a.Literal? ==> r == a.value
  {
    match a
    case Old => worry
    case Literal(x) => x
  }

  /** `Expr::evaluate`: the sum or the product of the two operands. */
  function EvalExpr(e: Expr, worry: int): (r: int)
    ensures e.Add? ==> r == EvalOperand(e.left, worry) + EvalOperand(e.right, worry)
    ensures e.Multiply? ==> r == EvalOperand(e.left, worry) * EvalOperand(e.right, worry)
  {
    match e
    case Add(a, b) => EvalOperand(a, worry) + EvalOperand(b, worry)
    case Multiply(a, b) => EvalOperand(a, worry) * EvalOperand(b, worry)
  }

  /** The three evaluations of the test suite. */
  lemma EvalExamples()
    ensures EvalExpr(Multiply(Old, Literal(19)), 2) == 38
    ensures EvalExpr(Add(Old, Literal(3)), 2) == 5
    ensures EvalExpr(Multiply(Old, Old), 3) == 9
  {
  }

  // ---------------------------------------------------------------------------
  // Arithmetic: Rust's truncating remainder, gcd and lcm.

  function Abs(v: int): nat
  {
    if v < 0 then -v else v
  }

  /** Rust's `%` on integers: truncates toward zero, so the remainder takes
      the sign of the dividend; dividing by zero panics. */
  function Rem(a: int, b: int): (r: int)
    requires b != 0
    ensures Abs(r) < Abs(b)
    ensures a >= 0 ==> r >= 0
    ensures a < 0 ==> r <= 0
  {
    var m := Abs(a) % Abs(b);
    if a < 0 then -m else m
  }

  /** `Rem(a, b) == 0` is divisibility by `b`, whatever the signs. */
  lemma RemZeroIsDivisibility(a: int, b: int)
    requires b != 0
    ensures Rem(a, b) == 0 <==> a % Abs(b) == 0
  {
    var n := Abs(b);
    if a < 0 {
      if (-a) % n == 0 {
        ModUnique(a, n, -((-a) / n), 0);
      }
      if a % n == 0 {
        ModUnique(-a, n, -(a / n), 0);
      }
    }
  }

  function Gcd(a: nat, b: nat): nat
    decreases b
  {
    if b == 0 then a else Gcd(b, a % b)
  }

  /** The gcd divides both arguments and is positive unless both are
      zero. */
  lemma {:induction false} GcdDivides(a: nat, b: nat)
    ensures (a > 0 || b > 0) ==> Gcd(a, b) > 0
    ensures Gcd(a, b) > 0 ==> a % Gcd(a, b) == 0 && b % Gcd(a, b) == 0
    decreases b
  {
    if b > 0 {
      var r := a % b;
      GcdDivides(b, r);
      var g := Gcd(b, r);
      if g > 0 {
        assert a == b * (a / b) + r;
        CommonDivisor(g, b, r, a / b);
      }
    }
  }

  /** `lcm` on magnitudes, as `num::integer::lcm` computes it: zero if
      either argument is. */
  function Lcm(a: nat, b: nat): nat
  {
    if a == 0 || b == 0 then 0
    else
      GcdDivides(a, b);
      a * (b / Gcd(a, b))
  }

  /** Both arguments divide their lcm, which is positive when both are. */
  lemma LcmMultiple(a: nat, b: nat)
    requires a > 0 && b > 0
    ensures Lcm(a, b) > 0
    ensures Lcm(a, b) % a == 0 && Lcm(a, b) % b == 0
  {
    GcdDivides(a, b);
    var g := Gcd(a, b);
    var ka := a / g;
    var kb := b / g;
    assert a == g * ka && b == g * kb;
    assert Lcm(a, b) == a * kb;
    MulMod(a, kb);
    assert a * kb == b * ka by {
      assert a * kb == (g * ka) * kb;
      assert b * ka == (g * kb) * ka;
    }
    MulMod(b, ka);
    MulAtLeast(kb, a);
  }

  /** If `n` divides `m`, it divides every multiple of `m`. */
  lemma DividesMultiple(m: nat, n: nat, k: int)
    requires n > 0 && m % n == 0
    ensures (m * k) % n == 0
  {
    var j := m / n;
    assert m == n * j;
    assert m * k == n * (j * k);
    MulMod(n, j * k);
  }

  /** Divisibility is transitive. */
  lemma DividesTransitive(c: nat, l: nat, e: nat)
    requires c > 0 && e > 0 && l % c == 0 && c % e == 0
    ensures l % e == 0
  {
    var k := l / c;
    assert l == c * k;
    DividesMultiple(c, e, k);
  }

  /** Reducing a worry level modulo `cap` keeps its divisibility by any
      `d` whose magnitude divides `cap`. */
  lemma ReductionKeepsDivisibility(x: int, cap: int, d: int)
    requires cap > 0 && d != 0 && cap % Abs(d) == 0
    ensures Rem(Rem(x, cap), d) == 0 <==> Rem(x, d) == 0
  {
    var n := Abs(d);
    var r := Rem(x, cap);
    var q := RemDecomposes(x, cap);
    var m := cap / n;
    assert cap * q == n * (m * q) by {
      assert cap == n * m;
    }
    AddMultiple(r, n, m * q);
    RemZeroIsDivisibility(r, d);
    RemZeroIsDivisibility(x, d);
  }

  /** The truncating remainder leaves a multiple of the divisor. */
  lemma RemDecomposes(x: int, cap: int) returns (q: int)
    requires cap > 0
    ensures x == cap * q + Rem(x, cap)
  {
    q := if x >= 0 then x / cap else -((-x) / cap);
    if x >= 0 {
      assert x == cap * (x / cap) + x % cap;
    } else {
      assert -x == cap * ((-x) / cap) + (-x) % cap;
    }
  }

  // ---------------------------------------------------------------------------
  // Monkeys.

  /** What a monkey does with an item: everything of `Monkey` but its
      queue. */
  datatype Rules = Rules(operation: Expr, divisor: int, throwIfTrue: nat, throwIfFalse: nat)

  datatype Monkey = Monkey(items: seq<int>, rules: Rules)

  /** The worry cap: the lcm of the divisors' magnitudes, taken with
      `reduce`, whose `unwrap` panics when there are no monkeys. */
  function WorryCap(ms: seq<Monkey>): (r: Result<nat>)
    ensures r.Err? <==> |ms| == 0
  {
    if |ms| == 0 then Err("no monkeys")
    else if |ms| == 1 then Ok(Abs(ms[0].rules.divisor))
    else
      var rest := WorryCap(ms[..|ms| - 1]);
      Ok(Lcm(rest.value, Abs(ms[|ms| - 1].rules.divisor)))
  }

  /** With every divisor non-zero the cap is positive and every divisor
      divides it. */
  lemma {:induction false} WorryCapMultiple(ms: seq<Monkey>)
    requires |ms| > 0 && forall j :: 0 <= j < |ms| ==> ms[j].rules.divisor != 0
    ensures WorryCap(ms).value > 0
    ensures forall j :: 0 <= j < |ms| ==> WorryCap(ms).value % Abs(ms[j].rules.divisor) == 0
  {
    if |ms| == 1 {
      assert Abs(ms[0].rules.divisor) % Abs(ms[0].rules.divisor) == 0;
    } else {
      var init := ms[..|ms| - 1];
      WorryCapMultiple(init);
      var c := WorryCap(init).value;
      var d := Abs(ms[|ms| - 1].rules.divisor);
      LcmMultiple(c, d);
      var l := Lcm(c, d);
      forall j | 0 <= j < |ms| ensures l % Abs(ms[j].rules.divisor) == 0 {
        if j < |ms| - 1 {
          assert ms[j] == init[j];
          DividesTransitive(c, l, Abs(ms[j].rules.divisor));
        }
      }
    }
  }

  /** Reducing by the worry cap never changes which way any monkey's test
      goes: the reduced game throws every item where the unreduced one
      would. */
  lemma WorryCapKeepsTests(ms: seq<Monkey>, x: int, j: nat)
    requires |ms| > 0 && forall k :: 0 <= k < |ms| ==> ms[k].rules.divisor != 0
    requires j < |ms|
    ensures WorryCap(ms).value > 0
    ensures Rem(Rem(x, WorryCap(ms).value), ms[j].rules.divisor) == 0 <==> Rem(x, ms[j].rules.divisor) == 0
  {
    WorryCapMultiple(ms);
    ReductionKeepsDivisibility(x, WorryCap(ms).value, ms[j].rules.divisor);
  }

  /** Where an item goes after inspection and reduction. */
  datatype Throw = Throw(dest: nat, worry: int)

  /** Inspect, reduce modulo the cap, test divisibility. */
  function Judge(m: Rules, item: int, cap: int): (t: Throw)
    requires cap != 0 && m.divisor != 0
    ensures t.worry == Rem(EvalExpr(m.operation, item), cap)
    ensures t.dest == (if Rem(t.worry, m.divisor) == 0 then m.throwIfTrue else m.throwIfFalse)
  {
    var w := Rem(EvalExpr(m.operation, item), cap);
    Throw(if Rem(w, m.divisor) == 0 then m.throwIfTrue else m.throwIfFalse, w)
  }

  /** The monkeys can play without a panic: a non-zero cap, non-zero
      divisors and every target an existing monkey. */
  predicate Playable(ms: seq<Monkey>, cap: int)
  {
    cap != 0 && forall j :: 0 <= j < |ms| ==>
      ms[j].rules.divisor != 0 && ms[j].rules.throwIfTrue < |ms| && ms[j].rules.throwIfFalse < |ms|
  }

  /** Same monkeys, possibly holding other items. */
  predicate SameRules(a: seq<Monkey>, b: seq<Monkey>)
  {
    |a| == |b| && forall j :: 0 <= j < |a| ==>
      a[j].rules == b[j].rules
  }

  function TotalItems(ms: seq<Monkey>): nat
  {
    if |ms| == 0 then 0 else TotalItems(ms[..|ms| - 1]) + |ms[|ms| - 1].items|
  }

  lemma {:induction false} TotalItemsUpdate(ms: seq<Monkey>, j: nat, m: Monkey)
    requires j < |ms|
    ensures TotalItems(ms[j := m]) == TotalItems(ms) - |ms[j].items| + |m.items|
  {
    if j < |ms| - 1 {
      assert ms[j := m][..|ms| - 1] == ms[..|ms| - 1][j := m];
      TotalItemsUpdate(ms[..|ms| - 1], j, m);
    } else {
      assert ms[j := m][..|ms| - 1] == ms[..|ms| - 1];
    }
  }

  /** One pass of the inner loop of a turn: monkey `i` pops its front item,
      inspects it and throws it to the back of the target's queue. Indexing
      a target that does not exist panics. */
  function ThrowOne(ms: seq<Monkey>, i: nat, cap: int): (r: Result<seq<Monkey>>)
    requires i < |ms| && |ms[i].items| > 0
    ensures Playable(ms, cap) ==> r.Ok?
    ensures r.Ok? ==> SameRules(ms, r.value)
  {
    if cap == 0 || ms[i].rules.divisor == 0 then Err("remainder by zero")
    else
      var t := Judge(ms[i].rules, ms[i].items[0], cap);
      var popped := ms[i := ms[i].(items := ms[i].items[1..])];
      if t.dest >= |ms| then Err("no such monkey")
      else Ok(popped[t.dest := popped[t.dest].(items := popped[t.dest].items + [t.worry])])
  }

  /** A throw moves one item: the total is unchanged. */
  lemma ThrowOneConserves(ms: seq<Monkey>, i: nat, cap: int)
    requires i < |ms| && |ms[i].items| > 0
    requires ThrowOne(ms, i, cap).Ok?
    ensures TotalItems(ThrowOne(ms, i, cap).value) == TotalItems(ms)
  {
    var t := Judge(ms[i].rules, ms[i].items[0], cap);
    var popped := ms[i := ms[i].(items := ms[i].items[1..])];
    TotalItemsUpdate(ms, i, ms[i].(items := ms[i].items[1..]));
    TotalItemsUpdate(popped, t.dest, popped[t.dest].(items := popped[t.dest].items + [t.worry]));
  }

  /** `k` passes of the inner loop. */
  function Throws(ms: seq<Monkey>, i: nat, cap: int, k: nat): (r: Result<seq<Monkey>>)
    requires i < |ms| && k <= |ms[i].items|
    ensures Playable(ms, cap) ==> r.Ok?
    ensures r.Ok? ==> SameRules(ms, r.value)
    decreases k
  {
    if k == 0 then Ok(ms)
    else
      match ThrowOne(ms, i, cap)
      case Err(e) => Err(e)
      case Ok(ms1) =>
        assert Playable(ms, cap) ==> Playable(ms1, cap);
        Throws(ms1, i, cap, k - 1)
  }

  /** The throws monkey `i` makes for a queue of items, front first. */
  function Judged(m: Rules, items: seq<int>, cap: int): (r: seq<Throw>)
    requires cap != 0 && m.divisor != 0
    ensures |r| == |items|
    ensures forall k :: 0 <= k < |items| ==> r[k] == Judge(m, items[k], cap)
  {
    if |items| == 0 then [] else [Judge(m, items[0], cap)] + Judged(m, items[1..], cap)
  }

  /** The worry levels thrown to monkey `j`, in order. */
  function SentTo(ts: seq<Throw>, j: nat): seq<int>
  {
    if |ts| == 0 then [] else (if ts[0].dest == j then [ts[0].worry] else []) + SentTo(ts[1..], j)
  }

  /** One throw: the thrower loses its front item, and the target gains
      the judged worry level at the back of its queue. */
  lemma ThrowOneItems(ms: seq<Monkey>, i: nat, cap: int)
    requires i < |ms| && |ms[i].items| > 0 && Playable(ms, cap)
    ensures var t := Judge(ms[i].rules, ms[i].items[0], cap);
      forall j :: 0 <= j < |ms| ==>
        ThrowOne(ms, i, cap).value[j].items
          == (if j == i then ms[i].items[1..] else ms[j].items) + (if t.dest == j then [t.worry] else [])
  {
  }

  /** After the first `k` throws of a turn, the thrower holds its remaining
      items followed by whatever it threw to itself, and every other monkey
      holds its old queue followed by what it was sent, in order. */
  lemma {:induction false} ThrowsSpec(ms: seq<Monkey>, i: nat, cap: int, k: nat)
    requires i < |ms| && k <= |ms[i].items| && Playable(ms, cap)
    ensures var ts := Judged(ms[i].rules, ms[i].items[..k], cap);
      forall j :: 0 <= j < |ms| ==>
        Throws(ms, i, cap, k).value[j].items
          == (if j == i then ms[i].items[k..] else ms[j].items) + SentTo(ts, j)
    decreases k
  {
    var ts := Judged(ms[i].rules, ms[i].items[..k], cap);
    if k == 0 {
      assert ms[i].items[0..] == ms[i].items;
    } else {
      var ms1 := ThrowOne(ms, i, cap).value;
      var t := Judge(ms[i].rules, ms[i].items[0], cap);
      ThrowOneItems(ms, i, cap);
      assert Playable(ms1, cap);
      ThrowsSpec(ms1, i, cap, k - 1);
      var rest := Throws(ms1, i, cap, k - 1).value;
      assert Throws(ms, i, cap, k).value == rest;
      var ts1 := Judged(ms1[i].rules, ms1[i].items[..k - 1], cap);
      assert ms1[i].items[..k - 1] == ms[i].items[1..k];
      assert ms[i].items[..k][1..] == ms[i].items[1..k];
      assert ts == [t] + ts1;
      ThrowsCombine(ms, ms1, rest, i, k, t, ts1);
    }
  }

  /** The inductive step of `ThrowsSpec`: the first throw followed by the
      remaining `k - 1`. */
  lemma ThrowsCombine(ms: seq<Monkey>, ms1: seq<Monkey>, rest: seq<Monkey>, i: nat, k: nat, t: Throw, ts1: seq<Throw>)
    requires |ms1| == |rest| == |ms| && i < |ms| && 1 <= k <= |ms[i].items|
    requires forall j :: 0 <= j < |ms| ==>
      ms1[j].items == (if j == i then ms[i].items[1..] else ms[j].items) + (if t.dest == j then [t.worry] else [])
    requires forall j :: 0 <= j < |ms| ==>
      rest[j].items == (if j == i then ms1[i].items[k - 1..] else ms1[j].items) + SentTo(ts1, j)
    ensures forall j :: 0 <= j < |ms| ==>
      rest[j].items == (if j == i then ms[i].items[k..] else ms[j].items) + SentTo([t] + ts1, j)
  {
    forall j | 0 <= j < |ms|
      ensures rest[j].items == (if j == i then ms[i].items[k..] else ms[j].items) + SentTo([t] + ts1, j)
    {
      ThrowsCombineAt(ms[j].items, ms1[j].items, rest[j].items, j == i, k, t, ts1, j);
    }
  }

  /** `ThrowsCombine` for one monkey `j`; `thrower` says whether `j` is the
      monkey throwing. */
  lemma ThrowsCombineAt(items: seq<int>, items1: seq<int>, after: seq<int>, thrower: bool, k: nat, t: Throw, ts1: seq<Throw>, j: nat)
    requires thrower ==> 1 <= k <= |items|
    requires items1 == (if thrower then items[1..] else items) + (if t.dest == j then [t.worry] else [])
    requires after == (if thrower then items1[k - 1..] else items1) + SentTo(ts1, j)
    ensures after == (if thrower then items[k..] else items) + SentTo([t] + ts1, j)
  {
    var extra := if t.dest == j then [t.worry] else [];
    assert SentTo([t] + ts1, j) == extra + SentTo(ts1, j) by {
      assert ([t] + ts1)[1..] == ts1;
    }
    var kept := if thrower then items[k..] else items;
    assert (if thrower then items1[k - 1..] else items1) == kept + extra;
    IntAssoc(kept, extra, SentTo(ts1, j));
  }

  lemma IntAssoc(a: seq<int>, b: seq<int>, c: seq<int>)
    ensures a + b + c == a + (b + c)
  {
  }

  lemma {:induction false} ThrowsConserve(ms: seq<Monkey>, i: nat, cap: int, k: nat)
    requires i < |ms| && k <= |ms[i].items| && Throws(ms, i, cap, k).Ok?
    ensures TotalItems(Throws(ms, i, cap, k).value) == TotalItems(ms)
    decreases k
  {
    if k > 0 {
      ThrowOneConserves(ms, i, cap);
      ThrowsConserve(ThrowOne(ms, i, cap).value, i, cap, k - 1);
    }
  }

  /** The game state: the monkeys and `inspections_per_monkey`. */
  datatype Game = Game(monkeys: seq<Monkey>, inspections: seq<nat>)

  /** Monkey `i`'s turn: exactly the items it holds at the start are
      processed, and its inspection count grows by that number. */
  function Turn(g: Game, i: nat, cap: int): (r: Result<Game>)
    requires i < |g.monkeys| && |g.inspections| == |g.monkeys|
    ensures r.Ok? ==> |r.value.inspections| == |r.value.monkeys| == |g.monkeys|
    ensures r.Ok? ==> r.value.inspections == g.inspections[i := g.inspections[i] + |g.monkeys[i].items|]
    ensures r.Ok? ==> SameRules(g.monkeys, r.value.monkeys)
    ensures Playable(g.monkeys, cap) ==> r.Ok?
  {
    var n := |g.monkeys[i].items|;
    match Throws(g.monkeys, i, cap, n)
    case Err(e) => Err(e)
    case Ok(ms) => Ok(Game(ms, g.inspections[i := g.inspections[i] + n]))
  }

  /** The effect of a whole turn: the thrower ends with only what it threw
      to itself, every other monkey gains what it was sent, and no item is
      created or lost. */
  lemma TurnSpec(g: Game, i: nat, cap: int)
    requires i < |g.monkeys| && |g.inspections| == |g.monkeys| && Playable(g.monkeys, cap)
    ensures var ts := Judged(g.monkeys[i].rules, g.monkeys[i].items, cap);
      forall j :: 0 <= j < |g.monkeys| ==>
        Turn(g, i, cap).value.monkeys[j].items
          == (if j == i then [] else g.monkeys[j].items) + SentTo(ts, j)
    ensures TotalItems(Turn(g, i, cap).value.monkeys) == TotalItems(g.monkeys)
  {
    var n := |g.monkeys[i].items|;
    ThrowsSpec(g.monkeys, i, cap, n);
    assert g.monkeys[i].items[..n] == g.monkeys[i].items;
    assert g.monkeys[i].items[n..] == [];
    ThrowsConserve(g.monkeys, i, cap, n);
  }

  /** One round: every monkey's turn, in order, from monkey `i` on. */
  function Round(g: Game, i: nat, cap: int): (r: Result<Game>)
    requires |g.inspections| == |g.monkeys| && i <= |g.monkeys|
    ensures r.Ok? ==> |r.value.inspections| == |r.value.monkeys| == |g.monkeys|
    ensures r.Ok? ==> SameRules(g.monkeys, r.value.monkeys)
    ensures Playable(g.monkeys, cap) ==> r.Ok?
    decreases |g.monkeys| - i
  {
    if i == |g.monkeys| then Ok(g)
    else
      match Turn(g, i, cap)
      case Err(e) => Err(e)
      case Ok(g1) =>
        assert Playable(g.monkeys, cap) ==> Playable(g1.monkeys, cap);
        Round(g1, i + 1, cap)
  }

  /** `rounds` rounds. */
  function Rounds(g: Game, cap: int, rounds: nat): (r: Result<Game>)
    requires |g.inspections| == |g.monkeys|
    ensures r.Ok? ==> |r.value.inspections| == |r.value.monkeys| == |g.monkeys|
    ensures r.Ok? ==> SameRules(g.monkeys, r.value.monkeys)
    ensures Playable(g.monkeys, cap) ==> r.Ok?
    decreases rounds
  {
    if rounds == 0 then Ok(g)
    else
      match Round(g, 0, cap)
      case Err(e) => Err(e)
      case Ok(g1) =>
        assert Playable(g.monkeys, cap) ==> Playable(g1.monkeys, cap);
        Rounds(g1, cap, rounds - 1)
  }

  /** No round creates or loses an item. */
  lemma {:induction false} RoundConserves(g: Game, i: nat, cap: int)
    requires |g.inspections| == |g.monkeys| && i <= |g.monkeys| && Playable(g.monkeys, cap)
    ensures TotalItems(Round(g, i, cap).value.monkeys) == TotalItems(g.monkeys)
    decreases |g.monkeys| - i
  {
    if i < |g.monkeys| {
      TurnSpec(g, i, cap);
      var g1 := Turn(g, i, cap).value;
      assert Playable(g1.monkeys, cap);
      RoundConserves(g1, i + 1, cap);
    }
  }

  lemma {:induction false} RoundsConserve(g: Game, cap: int, rounds: nat)
    requires |g.inspections| == |g.monkeys| && Playable(g.monkeys, cap)
    ensures TotalItems(Rounds(g, cap, rounds).value.monkeys) == TotalItems(g.monkeys)
    decreases rounds
  {
    if rounds > 0 {
      var g1 := Round(g, 0, cap).value;
      assert TotalItems(g1.monkeys) == TotalItems(g.monkeys) by {
        RoundConserves(g, 0, cap);
      }
      assert Playable(g1.monkeys, cap);
      assert TotalItems(Rounds(g1, cap, rounds - 1).value.monkeys) == TotalItems(g1.monkeys) by {
        RoundsConserve(g1, cap, rounds - 1);
      }
    }
  }

  /** `first` is a largest count and `second` a largest count among the
      other monkeys: the first two entries after sorting in descending
      order. */
  predicate TopTwo(counts: seq<nat>, first: nat, second: nat)
  {
    exists a, b :: 0 <= a < |counts| && 0 <= b < |counts| && a != b
      && counts[a] == first && counts[b] == second
      && (forall k :: 0 <= k < |counts| ==> counts[k] <= first)
      && (forall k :: 0 <= k < |counts| && k != a ==> counts[k] <= second)
  }

  /** The product of the two largest counts. */
  ghost predicate IsMonkeyBusiness(counts: seq<nat>, v: nat)
  {
    exists first: nat, second: nat :: TopTwo(counts, first, second) && v == first * second
  }

  lemma Witness(counts: seq<nat>, first: nat, second: nat)
    requires TopTwo(counts, first, second)
    ensures IsMonkeyBusiness(counts, first * second)
  {
  }

  /** Two positions holding a largest count and a largest count among the
      others name the top two. */
  lemma TopTwoAt(counts: seq<nat>, a: nat, b: nat)
    requires a < |counts| && b < |counts| && a != b
    requires forall j :: 0 <= j < |counts| ==> counts[j] <= counts[a]
    requires forall j :: 0 <= j < |counts| && j != a ==> counts[j] <= counts[b]
    ensures TopTwo(counts, counts[a], counts[b])
  {
  }

  /** `inspections_per_monkey` sorted descending, then the product of the
      first two entries; indexing entry 1 panics with fewer than two
      monkeys. The two entries are a largest count and a largest count
      among the others. */
  method MonkeyBusiness(counts: seq<nat>) returns (r: Result<nat>, first: nat, second: nat)
    ensures r.Err? <==> |counts| < 2
    ensures r.Ok? ==> r.value == first * second && TopTwo(counts, first, second)
  {
    if |counts| < 2 {
      return Err("fewer than two monkeys"), 0, 0;
    }
    var a, b := 0, 1;
    if counts[1] > counts[0] {
      a, b := 1, 0;
    }
    var k := 2;
    while k < |counts|
      invariant 2 <= k <= |counts|
      invariant 0 <= a < k && 0 <= b < k && a != b
      invariant counts[b] <= counts[a]
      invariant forall j :: 0 <= j < k ==> counts[j] <= counts[a]
      invariant forall j :: 0 <= j < k && j != a ==> counts[j] <= counts[b]
    {
      if counts[k] > counts[a] {
        a, b := k, a;
      } else if counts[k] > counts[b] {
        b := k;
      }
      k := k + 1;
    }
    first, second := counts[a], counts[b];
    assert TopTwo(counts, first, second) by {
      TopTwoAt(counts, a, b);
    }
    r := Ok(first * second);
  }

  /** `N_ROUNDS`. */
  const Rounds10000: nat := 10000

  /** The game after `N_ROUNDS` rounds, every monkey starting with no
      inspections. */
  function Played(ms: seq<Monkey>, cap: int): Result<Game>
  {
    Rounds(Game(ms, seq(|ms|, _ => 0)), cap, Rounds10000)
  }

  /** `main` after parsing: compute the cap, play 10000 rounds, and report
      the monkey business. */
  method Solve(ms: seq<Monkey>) returns (r: Result<nat>)
    ensures WorryCap(ms).Err? ==> r.Err?
    ensures r.Ok? ==> |ms| >= 2
    ensures |ms| >= 2 && Playable(ms, WorryCap(ms).value) ==> r.Ok?
    ensures r.Ok? ==> WorryCap(ms).Ok? && Played(ms, WorryCap(ms).value).Ok?
    ensures r.Ok? ==> IsMonkeyBusiness(Played(ms, WorryCap(ms).value).value.inspections, r.value)
  {
    var cap := WorryCap(ms);
    if cap.Err? {
      return Err(cap.reason);
    }
    var game := Played(ms, cap.value);
    if game.Err? {
      return Err(game.reason);
    }
    var first, second;
    r, first, second := MonkeyBusiness(game.value.inspections);
    if r.Ok? {
      Witness(game.value.inspections, first, second);
    }
  }
}
