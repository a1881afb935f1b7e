/** The ATM (createBankomat): a note inventory, a bound bank and at most one
    client session; deposits and greedy withdrawals. */
module Bankomats {
  import opened Outcomes
  import opened Clients
  import opened Banks
  import opened Notes

  /** What a withdrawal returns, and the inventory and client balance it leaves. */
  datatype Withdrawal = Withdrawal(result: Result<map<int, int>>, inventory: seq<int>, balance: int)

  /** giveMoney as the source writes it, for a bound client holding `balance`:
      the guards, then the greedy pass over the inventory; the notes taken by
      a pass that ends short are not put back, and on success the balance is
      reduced by what is still owed after the pass. */
  function GiveMoneyOutcome(faces: seq<int>, balance: int, inventory: seq<int>, amount: int): (w: Withdrawal)
    requires |inventory| == |faces| && Denominations(faces)
    ensures |w.inventory| == |faces|
    ensures w.balance == balance
    ensures w.result.Ok? ==> amount <= balance && amount % Smallest == 0
  {
    if amount > balance then Withdrawal(Err(ExceedsBalance), inventory, balance)
    else if amount % Smallest != 0 then Withdrawal(Err(NotMultipleOfTen), inventory, balance)
    else
      var p := Greedy(faces, inventory, amount);
      if p.rest != 0 then Withdrawal(Err(InsufficientNotes), Left(inventory, p.steps), balance)
      else Withdrawal(Ok(PlanOf(faces, p.steps)), Left(inventory, p.steps), balance - p.rest)
  }

  /** The withdrawal the source evidently intends: the same guards and the
      same greedy pass, but a pass that ends short leaves the inventory as it
      was, and a successful one debits the requested amount. */
  function WithdrawOutcome(faces: seq<int>, balance: int, inventory: seq<int>, amount: int): (w: Withdrawal)
    requires |inventory| == |faces| && Denominations(faces)
    ensures |w.inventory| == |faces|
    ensures w.result.Err? ==> w.inventory == inventory && w.balance == balance
    ensures w.result.Ok? ==> w.balance == balance - amount && 0 <= amount <= balance
  {
    if amount > balance then Withdrawal(Err(ExceedsBalance), inventory, balance)
    else if amount % Smallest != 0 then Withdrawal(Err(NotMultipleOfTen), inventory, balance)
    else
      var p := Greedy(faces, inventory, amount);
      if p.rest != 0 then Withdrawal(Err(InsufficientNotes), inventory, balance)
      else Withdrawal(Ok(PlanOf(faces, p.steps)), Left(inventory, p.steps), balance - amount)
  }

  /** The guards of giveMoney: an amount above the balance, then an amount that
      is not a multiple of the smallest note, is refused with nothing changed. */
  lemma GiveMoneyGuards(faces: seq<int>, balance: int, inventory: seq<int>, amount: int)
    requires |inventory| == |faces| && Denominations(faces)
    ensures var w := GiveMoneyOutcome(faces, balance, inventory, amount);
            && (w.result == Err(ExceedsBalance) <==> amount > balance)
            && (w.result == Err(NotMultipleOfTen) <==> amount <= balance && amount % Smallest != 0)
            && (w.result.Err? && w.result.error != InsufficientNotes ==>
                  w.inventory == inventory && w.balance == balance)
  {
  }

  /** A successful giveMoney dispenses notes worth exactly the amount, takes
      exactly those notes from the inventory, never drives a count negative,
      and leaves the balance as it was. */
  lemma GiveMoneySuccess(faces: seq<int>, balance: int, inventory: seq<int>, amount: int)
    requires |inventory| == |faces| && Denominations(faces) && NonNegative(inventory)
    requires GiveMoneyOutcome(faces, balance, inventory, amount).result.Ok?
    ensures var w := GiveMoneyOutcome(faces, balance, inventory, amount);
            && BundleValue(w.result.value, faces) == amount
            && (forall k :: 0 <= k < |faces| ==>
                  w.inventory[k] == inventory[k] - Get(w.result.value, faces[k]) >= 0)
            && Worth(w.inventory, faces) == Worth(inventory, faces) - amount
            && w.balance == balance
  {
    var p := Greedy(faces, inventory, amount);
    var plan := PlanOf(faces, p.steps);
    assert p.rest == 0 && GiveMoneyOutcome(faces, balance, inventory, amount)
                          == Withdrawal(Ok(plan), Left(inventory, p.steps), balance);
    GreedyConservation(faces, inventory, amount);
    GreedyConserves(faces, inventory, amount);
    PlanValue(faces, p.steps);
    PlanEntries(faces, p.steps);
    forall k | 0 <= k < |faces|
      ensures Left(inventory, p.steps)[k] == inventory[k] - Get(plan, faces[k]) >= 0
    {
      assert Counts(p.steps)[k] == Count(p.steps[k]);
    }
  }

  /** A giveMoney that runs short still keeps the notes its pass took: the
      inventory loses the value of the partial plan although nothing is returned. */
  lemma GiveMoneyShortKeepsTakenNotes(faces: seq<int>, balance: int, inventory: seq<int>, amount: int)
    requires |inventory| == |faces| && Denominations(faces)
    requires GiveMoneyOutcome(faces, balance, inventory, amount).result == Err(InsufficientNotes)
    ensures var w := GiveMoneyOutcome(faces, balance, inventory, amount);
            var p := Greedy(faces, inventory, amount);
            && w.inventory == Left(inventory, p.steps)
            && Worth(w.inventory, faces) == Worth(inventory, faces) - (amount - p.rest)
            && w.balance == balance
  {
    GreedyConserves(faces, inventory, amount);
  }

  /** A short pass on any eight denominations ending in 50, 10: with a balance
      of 100 and a single 50 note, giveMoney(100) takes the 50 note, is still
      owed 50 at the end, fails, and the 50 note is gone. */
  lemma {:induction false} GiveMoneyShortPass(faces: seq<int>, inventory: seq<int>)
    requires |faces| == |inventory| == 8 && Denominations(faces) && faces[6] == 50 && faces[7] == 10
    requires forall k :: 0 <= k < 8 ==> inventory[k] == if k == 6 then 1 else 0
    ensures var w := GiveMoneyOutcome(faces, 100, inventory, 100);
            && w.result == Err(InsufficientNotes)
            && w.inventory[6] == 0
            && w.balance == 100
  {
    var p := Greedy(faces, inventory, 100);
    var cs := Counts(p.steps);
    forall k | 0 <= k < 8 ensures 0 <= cs[k] <= inventory[k] {
      GreedyWithinStock(faces, inventory, 100, k);
    }
    WorthOfNothing(cs[..6], faces[..6]);
    GreedyTrace(faces, inventory, 100, 6);
    assert p.steps[6] == Take(1);
    WorthPrefixStep(cs, faces, 6);
    WorthPrefixStep(cs, faces, 7);
    assert cs[..8] == cs && faces[..8] == faces;
    GreedyConservation(faces, inventory, 100);
    assert p.rest == 50;
  }

  /** The ATM's own denominations, all eight counts 0 except one 50 note:
      giveMoney(100) fails and the inventory has lost the 50 note. */
  lemma GiveMoneyShortExample(inventory: seq<int>)
    requires inventory == [0, 0, 0, 0, 0, 0, 1, 0]
    ensures var w := GiveMoneyOutcome(Nominals, 100, inventory, 100);
            && w.result == Err(InsufficientNotes)
            && w.inventory[6] == 0
            && w.balance == 100
  {
    NominalsShape();
    GiveMoneyShortPass(Nominals, inventory);
  }

  /** A paid-out withdrawal on any eight denominations with 100 at index 5:
      with a balance of 100 and a single 100 note, giveMoney(100) pays out that
      note as the plan {100: 1} (the smaller denominations are skipped once
      nothing is owed), worth 100, and the balance is still 100. */
  lemma {:induction false} GiveMoneyPaidPass(faces: seq<int>, inventory: seq<int>)
    requires |faces| == |inventory| == 8 && Denominations(faces) && faces[5] == 100
    requires forall k :: 0 <= k < 8 ==> inventory[k] == if k == 5 then 1 else 0
    ensures var w := GiveMoneyOutcome(faces, 100, inventory, 100);
            && w.result == Ok(map[100 := 1])
            && BundleValue(w.result.value, faces) == 100
            && w.inventory[5] == 0
            && w.balance == 100
  {
    var p := Greedy(faces, inventory, 100);
    var cs := Counts(p.steps);
    forall k | 0 <= k < 8 ensures 0 <= cs[k] <= inventory[k] {
      GreedyWithinStock(faces, inventory, 100, k);
    }
    WorthOfNothing(cs[..5], faces[..5]);
    GreedyTrace(faces, inventory, 100, 5);
    assert p.steps[5] == Take(1);
    WorthPrefixStep(cs, faces, 5);
    WorthPrefixStep(cs, faces, 6);
    WorthPrefixStep(cs, faces, 7);
    assert cs[..8] == cs && faces[..8] == faces;
    GreedyConservation(faces, inventory, 100);
    assert p.rest == 0;
    GreedyTrace(faces, inventory, 100, 6);
    assert p.steps[6] == Skip;
    GreedyTrace(faces, inventory, 100, 7);
    assert p.steps[7] == Skip;
    forall k | 0 <= k < 5 ensures p.steps[k] == Skip {
      GreedySkipsLarger(faces, inventory, 100, k);
    }
    PlanValue(faces, p.steps);
    PlanEntries(faces, p.steps);
    var plan := PlanOf(faces, p.steps);
    forall key ensures key in plan <==> key == 100 {
      if key in plan {
        var k :| 0 <= k < 8 && faces[k] == key;
        assert p.steps[k].Take?;
      }
    }
    assert plan == map[100 := 1];
  }

  /** The ATM's own denominations, all eight counts 0 except one 100 note:
      giveMoney(100) pays out the note and leaves the balance at 100. */
  lemma GiveMoneyPaidExample(inventory: seq<int>)
    requires inventory == [0, 0, 0, 0, 0, 1, 0, 0]
    ensures var w := GiveMoneyOutcome(Nominals, 100, inventory, 100);
            && w.result == Ok(map[100 := 1])
            && BundleValue(w.result.value, Nominals) == 100
            && w.inventory[5] == 0
            && w.balance == 100
  {
    NominalsShape();
    GiveMoneyPaidPass(Nominals, inventory);
  }

  /** The corrected withdrawal answers exactly as giveMoney does; only the
      state it leaves differs. */
  lemma WithdrawAnswersAsGiveMoney(faces: seq<int>, balance: int, inventory: seq<int>, amount: int)
    requires |inventory| == |faces| && Denominations(faces)
    ensures WithdrawOutcome(faces, balance, inventory, amount).result
         == GiveMoneyOutcome(faces, balance, inventory, amount).result
  {
  }

  /** The corrected withdrawal keeps the books: on success the client is
      debited the amount, the plan is worth the amount and the inventory loses
      exactly that value; on any failure nothing changes; counts never go
      negative. */
  lemma WithdrawConserves(faces: seq<int>, balance: int, inventory: seq<int>, amount: int)
    requires |inventory| == |faces| && Denominations(faces) && NonNegative(inventory)
    ensures var w := WithdrawOutcome(faces, balance, inventory, amount);
            && NonNegative(w.inventory)
            && (w.result.Ok? ==>
                  && BundleValue(w.result.value, faces) == amount
                  && w.balance == balance - amount >= 0
                  && Worth(w.inventory, faces) == Worth(inventory, faces) - amount)
            && (w.result.Err? ==> w.inventory == inventory && w.balance == balance)
  {
    var w := WithdrawOutcome(faces, balance, inventory, amount);
    if amount <= balance && amount % Smallest == 0 {
      var p := Greedy(faces, inventory, amount);
      if p.rest == 0 {
        assert w == Withdrawal(Ok(PlanOf(faces, p.steps)), Left(inventory, p.steps), balance - amount);
        GreedyConservation(faces, inventory, amount);
        GreedyConserves(faces, inventory, amount);
        PlanValue(faces, p.steps);
      } else {
        assert w == Withdrawal(Err(InsufficientNotes), inventory, balance);
      }
    }
  }

  class Bankomat {
    const bank: Bank
    /** The denominations, largest first; every machine uses Nominals. */
    const nominals: seq<int>
    /** Notes on hand, indexed like nominals.  The array is the caller's, as
        the source keeps the caller's inventory object. */
    const notes: array<int>
    var current: Client?

    predicate Valid()
    {
      notes.Length == |nominals| && Denominations(nominals)
    }

    /** createBankomat(inventory, bank): no session is bound at first. */
    constructor (inventory: array<int>, bank: Bank)
      requires inventory.Length == |Nominals|
      ensures Valid() && nominals == Nominals
      ensures notes == inventory && this.bank == bank && current == null
    {
      NominalsShape();
      this.bank := bank;
      nominals := Nominals;
      notes := inventory;
      current := null;
    }

    /** setClient: binds the candidate exactly when no session is bound and a
        roster entry of the bank has the candidate's name; otherwise refuses
        with one error for both causes and changes nothing. */
    method SetClient(candidate: Client?) returns (r: Outcome)
      modifies this`current
      ensures r == Pass <==>
                old(current) == null && ValidateClient(candidate) && HasName(bank.clients, candidate.name)
      ensures r == Pass ==> current == candidate
      ensures r != Pass ==> r == Fail(ClientNotAllowed) && current == old(current)
    {
      if candidate != null && HasName(bank.clients, candidate.name) && current == null && ValidateClient(candidate) {
        current := candidate;
        return Pass;
      }
      return Fail(ClientNotAllowed);
    }

    /** removeClient: clears the session, whether or not one was bound, so a
        second call has the same effect as the first. */
    method RemoveClient() returns (r: bool)
      modifies this`current
      ensures r && current == null
    {
      current := null;
      return true;
    }

    /** addMoney: with a bound client, adds every bundle's counts of the
        denominations to the inventory and credits the client with their face
        value; keys that are not denominations are ignored. */
    method AddMoney(bundles: seq<map<int, int>>) returns (r: Outcome)
      requires Valid()
      modifies notes, current
      ensures old(current) == null ==> r == Fail(NoSession) && notes[..] == old(notes[..])
      ensures old(current) != null ==>
                && r == Pass
                && notes[..] == Plus(old(notes[..]), Totals(bundles, nominals))
                && current.balance == old(current.balance) + DepositValue(bundles, nominals)
    {
      if current == null {
        return Fail(NoSession);
      }
      ghost var stock := notes[..];
      var sum := 0;
      for i := 0 to |bundles|
        modifies notes
        invariant forall j :: 0 <= j < notes.Length ==> notes[j] == stock[j] + Deposited(bundles[..i], nominals[j])
        invariant sum == DepositValue(bundles[..i], nominals)
      {
        ghost var before := notes[..];
        var value := AddBundle(bundles[i]);
        sum := sum + value;
        assert bundles[..i + 1][..i] == bundles[..i];
        forall j | 0 <= j < notes.Length
          ensures notes[j] == stock[j] + Deposited(bundles[..i + 1], nominals[j])
        {
          assert notes[j] == before[j] + CountsIn(bundles[i], nominals)[j];
        }
      }
      assert bundles[..|bundles|] == bundles;
      assert notes[..] == Plus(stock, Totals(bundles, nominals));
      current.balance := current.balance + sum;
      return Pass;
    }

    /** One bundle of addMoney (the body of the source's loop over the
        bundles): for each denomination the bundle mentions, add its count to
        the inventory and its count times the face value to the sum. */
    method AddBundle(bundle: map<int, int>) returns (value: int)
      requires Valid()
      modifies notes
      ensures notes[..] == Plus(old(notes[..]), CountsIn(bundle, nominals))
      ensures value == BundleValue(bundle, nominals)
    {
      ghost var counts := CountsIn(bundle, nominals);
      value := 0;
      for k := 0 to notes.Length
        invariant forall j :: 0 <= j < k ==> notes[j] == old(notes[j]) + counts[j]
        invariant forall j :: k <= j < notes.Length ==> notes[j] == old(notes[j])
        invariant value == Worth(counts[..k], nominals[..k])
      {
        var face := nominals[k];
        WorthPrefixStep(counts, nominals, k);
        if face in bundle {
          notes[k] := notes[k] + bundle[face];
          value := value + bundle[face] * face;
        }
      }
      assert counts[..|counts|] == counts && nominals[..|nominals|] == nominals;
      assert notes[..] == Plus(old(notes[..]), counts);
    }

    /** One denomination of the greedy pass (the body of the source's loop over
        the denominations): skip it when nothing is owed or the note is larger
        than what is owed, otherwise take min(owed div face, notes on hand)
        notes out of the inventory. */
    method TakeNotes(k: nat, owed: int) returns (step: Step, rest: int)
      requires Valid() && k < notes.Length
      modifies notes
      ensures step == StepAt(nominals[k], old(notes[k]), owed)
      ensures rest == owed - Count(step) * nominals[k]
      ensures notes[..] == old(notes[..])[k := old(notes[k]) - Count(step)]
    {
      var face := nominals[k];
      if owed == 0 || face > owed {
        return Skip, owed;
      }
      var count := Min(owed / face, notes[k]);
      rest := owed - face * count;
      notes[k] := notes[k] - count;
      step := Take(count);
    }

    /** State of the greedy pass after the first `k` denominations: `steps`
        are the pass's first `k` steps, `rest` is what it still owes,
        `plan` and `taken` record those steps, and the inventory has lost
        the notes taken so far and nothing else. */
    ghost predicate Progress(stock: seq<int>, amount: int, k: nat, steps: seq<Step>,
                             rest: int, plan: map<int, int>, taken: seq<int>)
      requires Valid() && |stock| == notes.Length && k <= notes.Length
      reads this, notes
    {
      && |steps| == k && taken == Counts(steps)
      && plan == PlanOf(nominals[..k], steps)
      && (forall j :: 0 <= j < k ==> notes[j] == stock[j] - taken[j])
      && (forall j :: k <= j < notes.Length ==> notes[j] == stock[j])
      && var tail := Greedy(nominals[k..], stock[k..], rest);
         Greedy(nominals, stock, amount) == Split(steps + tail.steps, tail.rest)
    }

    /** One denomination of the pass. */
    method Advance(ghost stock: seq<int>, amount: int, k: nat, ghost steps: seq<Step>,
                   rest: int, plan: map<int, int>, taken: seq<int>)
      returns (ghost steps': seq<Step>, rest': int, plan': map<int, int>, taken': seq<int>)
      requires Valid() && |stock| == notes.Length && k < notes.Length
      requires Progress(stock, amount, k, steps, rest, plan, taken)
      modifies notes
      ensures Progress(stock, amount, k + 1, steps', rest', plan', taken')
    {
      GreedySplice(nominals, stock, amount, steps, rest, k);
      var step;
      step, rest' := TakeNotes(k, rest);
      PlanOfSnoc(nominals, steps, step, k);
      plan' := plan;
      if step.Take? {
        plan' := plan[nominals[k] := step.count];
      }
      taken' := taken + [Count(step)];
      steps' := steps + [step];
      assert Counts(steps') == Counts(steps) + [Count(step)];
      assert forall j :: 0 <= j < k ==> taken'[j] == taken[j];
    }

    /** The greedy pass of giveMoney, largest note first, decrementing the
        inventory in place; returns what is still owed, the plan, and the
        counts taken per denomination. */
    method Dispense(amount: int) returns (rest: int, plan: map<int, int>, taken: seq<int>)
      requires Valid()
      modifies notes
      ensures var p := Greedy(nominals, old(notes[..]), amount);
              && rest == p.rest && plan == PlanOf(nominals, p.steps) && taken == Counts(p.steps)
              && notes[..] == Left(old(notes[..]), p.steps)
    {
      ghost var stock := notes[..];
      ghost var steps: seq<Step> := [];
      rest, plan, taken := amount, map[], [];
      assert nominals[0..] == nominals && stock[0..] == stock;
      for k := 0 to notes.Length
        invariant Progress(stock, amount, k, steps, rest, plan, taken)
      {
        steps, rest, plan, taken := Advance(stock, amount, k, steps, rest, plan, taken);
      }
      assert nominals[|nominals|..] == [] && stock[|nominals|..] == [];
      assert Greedy(nominals, stock, amount) == Split(steps, rest) by {
        assert steps + [] == steps;
      }
      assert nominals[..|nominals|] == nominals;
      forall j | 0 <= j < notes.Length ensures notes[j] == Left(stock, steps)[j] {
        assert taken[j] == Count(steps[j]);
      }
      assert notes[..] == Left(stock, steps);
    }

    /** giveMoney, as written: see GiveMoneyOutcome. */
    method GiveMoney(amount: int) returns (r: Result<map<int, int>>)
      requires Valid()
      modifies notes, current
      ensures old(current) == null ==> r == Err(NoSession) && notes[..] == old(notes[..])
      ensures old(current) != null ==>
                var w := GiveMoneyOutcome(nominals, old(current.balance), old(notes[..]), amount);
                r == w.result && notes[..] == w.inventory && current.balance == w.balance
    {
      if current == null {
        return Err(NoSession);
      }
      if amount > current.balance {
        return Err(ExceedsBalance);
      }
      if amount % Smallest != 0 {
        return Err(NotMultipleOfTen);
      }
      var rest, plan, _ := Dispense(amount);
      if rest != 0 {
        return Err(InsufficientNotes);
      }
      current.balance := current.balance - rest;
      return Ok(plan);
    }

    /** Puts notes back into the inventory. */
    method Restock(counts: seq<int>)
      requires Valid() && |counts| == notes.Length
      modifies notes
      ensures notes[..] == Plus(old(notes[..]), counts)
    {
      for k := 0 to notes.Length
        invariant forall j :: 0 <= j < k ==> notes[j] == old(notes[j]) + counts[j]
        invariant forall j :: k <= j < notes.Length ==> notes[j] == old(notes[j])
      {
        notes[k] := notes[k] + counts[k];
      }
    }

    /** The corrected withdrawal: see WithdrawOutcome. */
    method Withdraw(amount: int) returns (r: Result<map<int, int>>)
      requires Valid()
      modifies notes, current
      ensures old(current) == null ==> r == Err(NoSession) && notes[..] == old(notes[..])
      ensures old(current) != null ==>
                var w := WithdrawOutcome(nominals, old(current.balance), old(notes[..]), amount);
                r == w.result && notes[..] == w.inventory && current.balance == w.balance
    {
      if current == null {
        return Err(NoSession);
      }
      if amount > current.balance {
        return Err(ExceedsBalance);
      }
      if amount % Smallest != 0 {
        return Err(NotMultipleOfTen);
      }
      ghost var stock := notes[..];
      var rest, plan, taken := Dispense(amount);
      if rest != 0 {
        Restock(taken);
        assert notes[..] == stock;
        return Err(InsufficientNotes);
      }
      current.balance := current.balance - amount;
      return Ok(plan);
    }
  }
}
