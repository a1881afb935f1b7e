/** Cash arithmetic of the ATM: the fixed denominations, the value of a set of
    note counts, deposits, and the greedy largest-note-first withdrawal pass. */
module Notes {

  /** Face values of the notes the machine handles, largest first.  Inventory
      counts, deposit totals and dispensed counts are sequences indexed like
      this list.  The definitions below take the list as a parameter `faces`;
      an ATM fixes it to this one. */
  const Nominals: seq<int> := [5000, 2000, 1000, 500, 200, 100, 50, 10]

  /** The smallest note; every withdrawal must be a multiple of it. */
  const Smallest: int := 10

  predicate Positive(faces: seq<int>)
  {
    forall k :: 0 <= k < |faces| ==> faces[k] > 0
  }

  predicate Descending(faces: seq<int>)
  {
    forall i, j :: 0 <= i < j < |faces| ==> faces[i] > faces[j]
  }

  /** A valid list of face values: positive and strictly decreasing. */
  predicate Denominations(faces: seq<int>)
  {
    Positive(faces) && Descending(faces)
  }

  predicate NonNegative(counts: seq<int>)
  {
    forall k :: 0 <= k < |counts| ==> counts[k] >= 0
  }

  lemma NominalsShape()
    ensures |Nominals| == 8 && Denominations(Nominals)
    ensures Nominals[|Nominals| - 1] == Smallest
  {
  }

  function Min(a: int, b: int): (m: int)
  {
    if a <= b then a else b
  }

  // ---------------------------------------------------------------------------
  // Value of note counts

  /** Sum of count * face over paired sequences. */
  function Worth(counts: seq<int>, faces: seq<int>): (w: int)
    requires |counts| == |faces|
  {
    if counts == [] then 0 else counts[0] * faces[0] + Worth(counts[1..], faces[1..])
  }

  lemma {:induction false} WorthAppend(a: seq<int>, fa: seq<int>, b: seq<int>, fb: seq<int>)
    requires |a| == |fa| && |b| == |fb|
    ensures Worth(a + b, fa + fb) == Worth(a, fa) + Worth(b, fb)
  {
    if a == [] {
      assert a + b == b && fa + fb == fb;
    } else {
      assert (a + b)[1..] == a[1..] + b;
      assert (fa + fb)[1..] == fa[1..] + fb;
      WorthAppend(a[1..], fa[1..], b, fb);
    }
  }

  /** Value of the first k+1 counts from the value of the first k. */
  lemma WorthPrefixStep(counts: seq<int>, faces: seq<int>, k: nat)
    requires |counts| == |faces| && k < |counts|
    ensures Worth(counts[..k + 1], faces[..k + 1]) == Worth(counts[..k], faces[..k]) + counts[k] * faces[k]
  {
    assert counts[..k + 1] == counts[..k] + [counts[k]];
    assert faces[..k + 1] == faces[..k] + [faces[k]];
    WorthAppend(counts[..k], faces[..k], [counts[k]], [faces[k]]);
  }

  lemma {:induction false} WorthOfNothing(counts: seq<int>, faces: seq<int>)
    requires |counts| == |faces|
    requires forall k :: 0 <= k < |counts| ==> counts[k] == 0
    ensures Worth(counts, faces) == 0
  {
    if counts != [] {
      WorthOfNothing(counts[1..], faces[1..]);
    }
  }

  function Plus(a: seq<int>, b: seq<int>): (r: seq<int>)
    requires |a| == |b|
  {
    seq(|a|, k requires 0 <= k < |a| => a[k] + b[k])
  }

  function Minus(a: seq<int>, b: seq<int>): (r: seq<int>)
    requires |a| == |b|
  {
    seq(|a|, k requires 0 <= k < |a| => a[k] - b[k])
  }

  /** Value is additive over pointwise sums of counts. */
  lemma {:induction false} WorthPlus(a: seq<int>, b: seq<int>, faces: seq<int>)
    requires |a| == |b| == |faces|
    ensures Worth(Plus(a, b), faces) == Worth(a, faces) + Worth(b, faces)
  {
    if a != [] {
      assert Plus(a, b)[1..] == Plus(a[1..], b[1..]);
      WorthPlus(a[1..], b[1..], faces[1..]);
    }
  }

  /** Value is subtractive over pointwise differences of counts. */
  lemma WorthMinus(a: seq<int>, b: seq<int>, faces: seq<int>)
    requires |a| == |b| == |faces|
    ensures Worth(Minus(a, b), faces) == Worth(a, faces) - Worth(b, faces)
  {
    assert Plus(Minus(a, b), b) == a;
    WorthPlus(Minus(a, b), b, faces);
  }

  // ---------------------------------------------------------------------------
  // Note bundles: maps from face value to a number of notes

  /** Count a bundle gives for a face value; a face it does not mention counts 0. */
  function Get(bundle: map<int, int>, face: int): (n: int)
  {
    if face in bundle then bundle[face] else 0
  }

  /** A bundle's counts for the given denominations, indexed like `faces`. */
  function CountsIn(bundle: map<int, int>, faces: seq<int>): (r: seq<int>)
    ensures |r| == |faces|
  {
    seq(|faces|, k requires 0 <= k < |faces| => Get(bundle, faces[k]))
  }

  /** Face value of a bundle; keys that are not denominations contribute nothing. */
  function BundleValue(bundle: map<int, int>, faces: seq<int>): (v: int)
  {
    Worth(CountsIn(bundle, faces), faces)
  }

  /** A key outside the denominations changes neither the counts a bundle
      deposits nor its value. */
  lemma ForeignKeyIgnored(bundle: map<int, int>, key: int, count: int, faces: seq<int>)
    requires key !in faces
    ensures CountsIn(bundle[key := count], faces) == CountsIn(bundle, faces)
    ensures BundleValue(bundle[key := count], faces) == BundleValue(bundle, faces)
  {
    var b' := bundle[key := count];
    forall k | 0 <= k < |faces| ensures CountsIn(b', faces)[k] == CountsIn(bundle, faces)[k] {
      assert faces[k] != key;
    }
  }

  /** Total count of one face value over a list of bundles. */
  function Deposited(bundles: seq<map<int, int>>, face: int): (n: int)
  {
    if bundles == [] then 0
    else Deposited(bundles[..|bundles| - 1], face) + Get(bundles[|bundles| - 1], face)
  }

  /** Totals per denomination over a list of bundles, indexed like `faces`. */
  function Totals(bundles: seq<map<int, int>>, faces: seq<int>): (r: seq<int>)
    ensures |r| == |faces|
  {
    seq(|faces|, k requires 0 <= k < |faces| => Deposited(bundles, faces[k]))
  }

  /** Sum of the bundles' values, accumulated bundle by bundle as the deposit does. */
  function DepositValue(bundles: seq<map<int, int>>, faces: seq<int>): (v: int)
  {
    if bundles == [] then 0
    else DepositValue(bundles[..|bundles| - 1], faces) + BundleValue(bundles[|bundles| - 1], faces)
  }

  /** The credited amount equals the value of the per-denomination totals. */
  lemma {:induction false} DepositValueIsWorthOfTotals(bundles: seq<map<int, int>>, faces: seq<int>)
    ensures DepositValue(bundles, faces) == Worth(Totals(bundles, faces), faces)
  {
    if bundles == [] {
      WorthOfNothing(Totals(bundles, faces), faces);
    } else {
      var init := bundles[..|bundles| - 1];
      var last := bundles[|bundles| - 1];
      DepositValueIsWorthOfTotals(init, faces);
      assert Totals(bundles, faces) == Plus(Totals(init, faces), CountsIn(last, faces));
      WorthPlus(Totals(init, faces), CountsIn(last, faces), faces);
    }
  }

  /** A deposit conserves value: the inventory gains exactly the amount the
      client is credited. */
  lemma DepositConservesValue(inventory: seq<int>, bundles: seq<map<int, int>>, faces: seq<int>)
    requires |inventory| == |faces|
    ensures Worth(Plus(inventory, Totals(bundles, faces)), faces)
            == Worth(inventory, faces) + DepositValue(bundles, faces)
  {
    WorthPlus(inventory, Totals(bundles, faces), faces);
    DepositValueIsWorthOfTotals(bundles, faces);
  }

  // ---------------------------------------------------------------------------
  // The greedy withdrawal pass

  /** What the pass does at one denomination: skip it, or take a number of notes. */
  datatype Step = Skip | Take(count: int)

  function Count(s: Step): (n: int)
  {
    match s
    case Skip => 0
    case Take(c) => c
  }

  function Counts(steps: seq<Step>): (r: seq<int>)
    ensures |r| == |steps|
  {
    seq(|steps|, k requires 0 <= k < |steps| => Count(steps[k]))
  }

  /** The step taken for one denomination when `remaining` is still owed:
      skip when nothing is owed or the note is larger than what is owed,
      otherwise take min(remaining div face, available). */
  function StepAt(face: int, available: int, remaining: int): (s: Step)
    requires face > 0
  {
    if remaining == 0 || face > remaining then Skip
    else Take(Min(remaining / face, available))
  }

  /** A step never takes more notes than are available nor more value than is
      owed; it takes all available notes unless fewer than one more note of
      that face is owed; and it gives nothing back into a non-negative stock. */
  lemma StepAtBounds(face: int, available: int, remaining: int)
    requires face > 0
    ensures var s := StepAt(face, available, remaining);
            && (s.Skip? <==> remaining <= 0 || face > remaining)
            && (s.Take? ==> s.count <= available && s.count * face <= remaining)
            && (s.Take? ==> s.count == available || remaining - s.count * face < face)
            && (available >= 0 ==> 0 <= Count(s))
  {
    if remaining != 0 && face <= remaining {
      var q := remaining / face;
      assert q * face <= remaining && remaining - q * face < face;
      var c := Min(q, available);
      assert c * face <= q * face by {
        assert (q - c) * face >= 0;
      }
    }
  }

  /** Outcome of the pass: one step per denomination and the amount still owed. */
  datatype Split = Split(steps: seq<Step>, rest: int)

  /** The greedy pass over `faces` (largest first) with `avail` notes of each.
      Nothing is dispensed for an amount that is not positive. */
  function Greedy(faces: seq<int>, avail: seq<int>, remaining: int): (p: Split)
    requires |avail| == |faces| && Positive(faces)
    ensures |p.steps| == |faces|
    ensures remaining <= 0 ==> p.rest == remaining
    decreases |faces|
  {
    if faces == [] then Split([], remaining)
    else
      var s := StepAt(faces[0], avail[0], remaining);
      var tail := Greedy(faces[1..], avail[1..], remaining - Count(s) * faces[0]);
      Split([s] + tail.steps, tail.rest)
  }

  /** The pass conserves value: what is still owed plus the value of the notes
      taken is the amount asked for, and a non-negative request is never
      overpaid. */
  lemma {:induction false} GreedyConservation(faces: seq<int>, avail: seq<int>, remaining: int)
    requires |avail| == |faces| && Positive(faces)
    ensures var p := Greedy(faces, avail, remaining);
            && p.rest + Worth(Counts(p.steps), faces) == remaining
            && (remaining >= 0 ==> p.rest >= 0)
  {
    if faces != [] {
      var s := StepAt(faces[0], avail[0], remaining);
      StepAtBounds(faces[0], avail[0], remaining);
      var tail := Greedy(faces[1..], avail[1..], remaining - Count(s) * faces[0]);
      GreedyConservation(faces[1..], avail[1..], remaining - Count(s) * faces[0]);
      var p := Greedy(faces, avail, remaining);
      assert Counts(p.steps)[1..] == Counts(tail.steps);
    }
  }

  /** Each denomination gives at most the notes in stock, and none is given
      back into a non-negative stock. */
  lemma {:induction false} GreedyWithinStock(faces: seq<int>, avail: seq<int>, remaining: int, k: nat)
    requires |avail| == |faces| && Positive(faces) && k < |faces| && avail[k] >= 0
    ensures 0 <= Count(Greedy(faces, avail, remaining).steps[k]) <= avail[k]
  {
    if k > 0 {
      var s := StepAt(faces[0], avail[0], remaining);
      StepAtBounds(faces[0], avail[0], remaining);
      GreedyWithinStock(faces[1..], avail[1..], remaining - Count(s) * faces[0], k - 1);
    }
  }

  /** Unfolding of Greedy at the front, for a suffix of the denominations. */
  lemma GreedyUnfold(faces: seq<int>, avail: seq<int>, remaining: int, k: nat)
    requires |avail| == |faces| && Positive(faces) && k < |faces|
    ensures var s := StepAt(faces[k], avail[k], remaining);
            var tail := Greedy(faces[k + 1..], avail[k + 1..], remaining - Count(s) * faces[k]);
            Greedy(faces[k..], avail[k..], remaining) == Split([s] + tail.steps, tail.rest)
  {
    assert faces[k..][1..] == faces[k + 1..];
    assert avail[k..][1..] == avail[k + 1..];
  }

  /** One step of the pass seen from the front: if the steps so far followed
      by the pass over the remaining denominations make up the whole pass,
      then so do the steps so far, the next step, and the pass after it. */
  lemma GreedySplice(faces: seq<int>, avail: seq<int>, amount: int, steps: seq<Step>, rest: int, k: nat)
    requires |avail| == |faces| && Positive(faces) && k < |faces| && |steps| == k
    requires var tail := Greedy(faces[k..], avail[k..], rest);
             Greedy(faces, avail, amount) == Split(steps + tail.steps, tail.rest)
    ensures var s := StepAt(faces[k], avail[k], rest);
            var tail := Greedy(faces[k + 1..], avail[k + 1..], rest - Count(s) * faces[k]);
            Greedy(faces, avail, amount) == Split((steps + [s]) + tail.steps, tail.rest)
  {
    var s := StepAt(faces[k], avail[k], rest);
    var tail := Greedy(faces[k + 1..], avail[k + 1..], rest - Count(s) * faces[k]);
    var g := Greedy(faces[k..], avail[k..], rest);
    GreedyUnfold(faces, avail, rest, k);
    assert g.steps == [s] + tail.steps && g.rest == tail.rest;
    assert steps + g.steps == (steps + [s]) + tail.steps;
  }

  /** The step at each denomination is StepAt applied to what was still owed
      before it: the requested amount minus the value already dispensed. */
  lemma {:induction false} GreedyTrace(faces: seq<int>, avail: seq<int>, remaining: int, k: nat)
    requires |avail| == |faces| && Positive(faces) && k < |faces|
    ensures var p := Greedy(faces, avail, remaining);
            p.steps[k] == StepAt(faces[k], avail[k], remaining - Worth(Counts(p.steps)[..k], faces[..k]))
  {
    var p := Greedy(faces, avail, remaining);
    var s := StepAt(faces[0], avail[0], remaining);
    var r' := remaining - Count(s) * faces[0];
    var tail := Greedy(faces[1..], avail[1..], r');
    assert p.steps == [s] + tail.steps;
    if k > 0 {
      GreedyTrace(faces[1..], avail[1..], r', k - 1);
      var cs := Counts(p.steps);
      var before := cs[..k];
      assert before[0] == Count(s);
      assert before[1..] == Counts(tail.steps)[..k - 1];
      assert faces[..k][1..] == faces[1..][..k - 1];
      assert Worth(before, faces[..k]) == Count(s) * faces[0] + Worth(Counts(tail.steps)[..k - 1], faces[1..][..k - 1]);
      assert p.steps[k] == tail.steps[k - 1];
    }
  }

  /** With no negative stock, a note larger than the requested amount is never
      dispensed: what is owed only shrinks along the pass. */
  lemma {:induction false} GreedySkipsLarger(faces: seq<int>, avail: seq<int>, remaining: int, k: nat)
    requires |avail| == |faces| && Positive(faces) && NonNegative(avail) && k < |faces|
    requires faces[k] > remaining
    ensures Greedy(faces, avail, remaining).steps[k] == Skip
  {
    if k > 0 {
      var s := StepAt(faces[0], avail[0], remaining);
      StepAtBounds(faces[0], avail[0], remaining);
      assert Count(s) * faces[0] >= 0;
      GreedySkipsLarger(faces[1..], avail[1..], remaining - Count(s) * faces[0], k - 1);
    }
  }

  /** Stock left after the pass. */
  function Left(avail: seq<int>, steps: seq<Step>): (r: seq<int>)
    requires |avail| == |steps|
  {
    Minus(avail, Counts(steps))
  }

  /** The pass never drives a count negative, and it removes from the stock
      exactly the value it dispenses. */
  lemma GreedyConserves(faces: seq<int>, avail: seq<int>, remaining: int)
    requires |avail| == |faces| && Positive(faces)
    ensures var p := Greedy(faces, avail, remaining);
            && (NonNegative(avail) ==> NonNegative(Left(avail, p.steps)))
            && Worth(Left(avail, p.steps), faces) == Worth(avail, faces) - (remaining - p.rest)
  {
    var p := Greedy(faces, avail, remaining);
    GreedyConservation(faces, avail, remaining);
    WorthMinus(avail, Counts(p.steps), faces);
    if NonNegative(avail) {
      forall k | 0 <= k < |faces| ensures Left(avail, p.steps)[k] >= 0 {
        GreedyWithinStock(faces, avail, remaining, k);
      }
    }
  }

  // ---------------------------------------------------------------------------
  // The withdrawal plan: face value -> notes dispensed

  /** The plan built along the pass: a key for every denomination that was not
      skipped (a count of 0 included), none for the skipped ones. */
  function PlanOf(faces: seq<int>, steps: seq<Step>): (plan: map<int, int>)
    requires |faces| == |steps|
  {
    if steps == [] then map[]
    else
      var n := |steps| - 1;
      var p := PlanOf(faces[..n], steps[..n]);
      match steps[n]
      case Skip => p
      case Take(c) => p[faces[n] := c]
  }

  /** The plan after one more step. */
  lemma PlanOfSnoc(faces: seq<int>, steps: seq<Step>, s: Step, k: nat)
    requires |steps| == k < |faces|
    ensures PlanOf(faces[..k + 1], steps + [s])
         == match s
            case Skip => PlanOf(faces[..k], steps)
            case Take(c) => PlanOf(faces[..k], steps)[faces[k] := c]
  {
    assert faces[..k + 1][..k] == faces[..k];
    assert (steps + [s])[..k] == steps;
  }

  /** With distinct face values, the plan holds exactly the taken steps. */
  lemma {:induction false} PlanEntries(faces: seq<int>, steps: seq<Step>)
    requires |faces| == |steps| && Descending(faces)
    ensures forall key :: key in PlanOf(faces, steps) ==> key in faces
    ensures forall k :: 0 <= k < |faces| ==>
              (faces[k] in PlanOf(faces, steps) <==> steps[k].Take?) &&
              Get(PlanOf(faces, steps), faces[k]) == Count(steps[k])
  {
    if steps != [] {
      var n := |steps| - 1;
      PlanEntries(faces[..n], steps[..n]);
      forall k | 0 <= k < n ensures faces[..n][k] == faces[k] && faces[k] != faces[n] && steps[..n][k] == steps[k] {
      }
      assert faces[n] !in faces[..n];
    }
  }

  /** The plan's face value is the value of the steps' counts. */
  lemma PlanValue(faces: seq<int>, steps: seq<Step>)
    requires |steps| == |faces| && Descending(faces)
    ensures BundleValue(PlanOf(faces, steps), faces) == Worth(Counts(steps), faces)
  {
    PlanEntries(faces, steps);
    assert CountsIn(PlanOf(faces, steps), faces) == Counts(steps);
  }
}
