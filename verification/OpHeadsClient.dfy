/** `update_op_heads` as the code runs it: a bounded retry loop over a shared ref. */
module OpHeadsClient {
  import opened ByteOrder
  import opened Common
  import opened OpHeadsCodec
  import opened OpHeadsProtocol

  /**
   * The catalog as one caller meets it. `rivals(k)` is what other writers leave
   * in the ref just before this caller's k-th RPC, if they touched it at all;
   * `seen` records the ref's value at each of this caller's RPCs. The k-th RPC
   * fails if `faults(k)`; a CAS that fails may still have been applied, if `late(k)`.
   */
  class Catalog {
    var value: RefValue
    const rivals: nat -> Option<RefValue>
    const faults: nat -> bool
    const late: nat -> bool
    ghost var seen: seq<RefValue>
    var served: nat

    constructor (value: RefValue, rivals: nat -> Option<RefValue>, faults: nat -> bool, late: nat -> bool)
      ensures this.value == value && this.rivals == rivals && this.faults == faults && this.late == late
      ensures seen == [] && served == 0
    {
      this.value := value;
      this.rivals := rivals;
      this.faults := faults;
      this.late := late;
      seen := [];
      served := 0;
    }

    function AfterRivals(): RefValue
      reads this
    {
      if rivals(served).Some? then rivals(served).value else value
    }

    method GetRef() returns (r: Option<RefValue>)
      modifies this
      ensures value == old(AfterRivals()) && r == if faults(old(served)) then None else Some(value)
      ensures seen == old(seen) + [value] && served == old(served) + 1
    {
      value := AfterRivals();
      seen := seen + [value];
      r := if faults(served) then None else Some(value);
      served := served + 1;
    }

    method CasRef(expected: RefValue, new': RefValue) returns (r: Option<CasOutcome>)
      modifies this
      ensures seen == old(seen) + [old(AfterRivals())] && served == old(served) + 1
      ensures r.None? <==> faults(old(served))
      ensures r.Some? ==> r.value == if old(AfterRivals()) == expected then Updated else Conflict(old(AfterRivals()))
      ensures value == if old(AfterRivals()) == expected && (r.Some? || late(old(served))) then new' else old(AfterRivals())
    {
      value := AfterRivals();
      seen := seen + [value];
      var failed, applied := faults(served), late(served);
      served := served + 1;
      if value == expected {
        if !failed || applied { value := new'; }
        r := if failed then None else Some(Updated);
      } else {
        r := if failed then None else Some(Conflict(value));
      }
    }
  }

  /**
   * One iteration as seen from outside: read_set ran at `first`, the value used
   * as precondition was read at `read`, the CAS ran at `cas`.
   */
  datatype Turn = Turn(first: nat, read: nat, cas: nat)

  /** The reads and the precondition of one turn, over the values seen at each RPC. */
  ghost predicate TurnOf(seen: seq<RefValue>, t: Turn, expected: RefValue) {
    && t.first <= t.read < t.cas < |seen|
    && (seen[t.first].Some? ==> Decode(seen[t.first].value).Ok?)
    && RealIds(Heads(seen[t.first]))
    && (if Heads(seen[t.first]) == {} then t.read == t.first + 1 && expected == seen[t.read]
        else t.read == t.first && expected == Some(Encoding(Heads(seen[t.first]))))
  }

  ghost predicate LostTurn(seen: seq<RefValue>, t: Turn) {
    exists expected :: TurnOf(seen, t, expected) && seen[t.cas] != expected
  }

  /** Turns follow one another, and each lost its CAS. */
  ghost predicate LostTurns(seen: seq<RefValue>, lost: seq<Turn>) {
    && (forall i {:trigger lost[i]} :: 0 <= i < |lost| ==> LostTurn(seen, lost[i]))
    && (forall i, j :: 0 <= i < j < |lost| ==> lost[i].cas < lost[j].first)
  }

  lemma LostTurnKept(seen: seq<RefValue>, more: seq<RefValue>, t: Turn)
    requires LostTurn(seen, t) && seen <= more
    ensures LostTurn(more, t)
  {
    var e :| TurnOf(seen, t, e) && seen[t.cas] != e;
    assert TurnOf(more, t, e) && more[t.cas] != e;
  }

  lemma OneMoreLost(before: seq<RefValue>, seen: seq<RefValue>, lost: seq<Turn>, t: Turn)
    requires LostTurns(before, lost) && before <= seen && LostTurn(seen, t) && |before| <= t.first
    ensures LostTurns(seen, lost + [t])
  {
    forall i | 0 <= i < |lost| ensures LostTurn(seen, lost[i]) && lost[i].cas < t.first {
      LostTurnKept(before, seen, lost[i]);
    }
  }

  /** The set to install: drop the old ids one by one, then insert the new one. */
  method NextHeads(current: set<OpId>, oldIds: seq<OpId>, newId: OpId) returns (next: set<OpId>)
    ensures next == Advanced(current, Elems(oldIds), newId)
  {
    next := current;
    for i := 0 to |oldIds|
      invariant next == current - Elems(oldIds[..i])
    {
      next := next - {oldIds[i]};
      assert Elems(oldIds[..i + 1]) == Elems(oldIds[..i]) + {oldIds[i]};
    }
    assert oldIds[..|oldIds|] == oldIds;
    next := next + {newId};
  }

  datatype TurnError = ReadFailed | BadValue(error: DecodeError) | CasFailed

  /** The value a turn installs: canonical, and the advanced set of its own first read. */
  ghost predicate Installed(seen: seq<RefValue>, t: Turn, oldIds: seq<OpId>, newId: OpId, value: RefValue) {
    t.cas < |seen| && TurnOf(seen, t, seen[t.cas]) && IsAdvance(value, Heads(seen[t.first]), oldIds, newId)
  }

  ghost predicate IsAdvance(value: RefValue, current: set<OpId>, oldIds: seq<OpId>, newId: OpId) {
    value.Some? && Canonical(value.value) && Heads(value) == Advanced(current, Elems(oldIds), newId)
  }

  /** The turn that started at RPC `first`: a second read only if the first saw no heads. */
  ghost function TurnFrom(seen: seq<RefValue>, first: nat): Turn
    requires first < |seen|
  {
    if Heads(seen[first]) == {} then Turn(first, first + 1, first + 2) else Turn(first, first, first + 1)
  }

  /** What one request's outcome and the value it left say of the turn it ends. */
  ghost predicate Settles(held: RefValue, expected: RefValue, advanced: bool, value: RefValue, r: Option<CasOutcome>) {
    && (value == held || (held == expected && advanced))
    && (r == Some(Updated) ==> held == expected && advanced)
    && (r.Some? && r.value.Conflict? ==> held != expected && value == held && r.value.actual == held)
  }

  /**
   * What an iteration that ended with `r` leaves: won, it has installed its set;
   * lost, the ref differed from the precondition; failed, the ref is left to the
   * rivals, unless it was the CAS that failed and had installed the set all the same.
   */
  ghost predicate TurnEnds(seen: seq<RefValue>, t: Turn, oldIds: seq<OpId>, newId: OpId, value: RefValue,
                           r: Result<CasOutcome, TurnError>)
    requires |seen| > 0
  {
    && (r == Ok(Updated) ==> Installed(seen, t, oldIds, newId, value))
    && (r.Ok? && r.value.Conflict? ==> LostTurn(seen, t) && r.value.actual == seen[|seen| - 1])
    && (r != Ok(Updated) ==>
          value == seen[|seen| - 1] || (r == Err(CasFailed) && Installed(seen, t, oldIds, newId, value)))
  }

  ghost predicate Readable(v: RefValue) {
    v.Some? ==> Decode(v.value).Ok?
  }

  /** No request from the `from`-th up to the `to`-th failed. */
  ghost predicate NoFaults(faults: nat -> bool, from: nat, to: nat) {
    forall k :: from <= k < to ==> !faults(k)
  }

  /**
   * Why an iteration that served the requests `from` to `to` ended with `r`: it
   * gets through iff its first read was readable and no request failed; an
   * unreadable value is reported as such; any other error is that of the last request.
   */
  ghost predicate Explained(faults: nat -> bool, from: nat, to: nat, first: RefValue, r: Result<CasOutcome, TurnError>) {
    && from < to
    && (r.Ok? <==> Readable(first) && NoFaults(faults, from, to))
    && (r.Err? && r.error.BadValue? ==> !Readable(first) && r.error.error == Decode(first.value).error && to == from + 1)
    && (r == Err(ReadFailed) || r == Err(CasFailed) ==> faults(to - 1) && NoFaults(faults, from, to - 1))
  }

  /** What one iteration adds to the values seen: one read, a second one if that saw no heads, the CAS. */
  ghost function SeenBy(first: RefValue, expected: RefValue, held: RefValue): seq<RefValue> {
    if Heads(first) == {} then [first] + [expected] + [held] else [first] + [held]
  }

  lemma TurnSettled(before: seq<RefValue>, first: RefValue, held: RefValue, expected: RefValue,
                    oldIds: seq<OpId>, newId: OpId, value: RefValue, r: Option<CasOutcome>)
    requires (first.Some? ==> Decode(first.value).Ok?) && RealIds(Heads(first))
    requires Heads(first) == {} || expected == Some(Encoding(Heads(first)))
    requires Settles(held, expected, IsAdvance(value, Heads(first), oldIds, newId), value, r)
    ensures var seen := before + SeenBy(first, expected, held);
            && before < seen && TurnFrom(seen, |before|).cas == |seen| - 1
            && TurnEnds(seen, TurnFrom(seen, |before|), oldIds, newId, value, if r.Some? then Ok(r.value) else Err(CasFailed))
  {
    var seen := before + SeenBy(first, expected, held);
    assert TurnOf(seen, TurnFrom(seen, |before|), expected);
  }

  /** `read_set`: an absent ref is the empty set; a failed RPC and an unreadable value are errors. */
  method ReadSet(cat: Catalog) returns (r: Result<set<OpId>, TurnError>)
    modifies cat
    ensures cat.seen == old(cat.seen) + [cat.value] && cat.served == old(cat.served) + 1 && cat.value == old(cat.AfterRivals())
    ensures r == if cat.faults(old(cat.served)) then Err(ReadFailed)
                 else if cat.value.Some? && Decode(cat.value.value).Err? then Err(TurnError.BadValue(Decode(cat.value.value).error))
                 else Ok(Heads(cat.value))
    ensures r.Ok? ==> RealIds(r.value)
  {
    var v := cat.GetRef();
    if v.None? { return Err(ReadFailed); }
    HeadsReal(v.value);
    if v.value.None? { return Ok({}); }
    var decoded := DecodeLoop(v.value.value);
    if decoded.Err? { return Err(TurnError.BadValue(decoded.error)); }
    return Ok(decoded.value);
  }

  /** The CAS precondition: another look at a ref without heads, the encoding of what was read otherwise. */
  method ExpectedFor(cat: Catalog, current: set<OpId>) returns (e: Option<RefValue>)
    requires RealIds(current)
    modifies cat
    ensures current == {} ==>
              && cat.seen == old(cat.seen) + [cat.value] && cat.served == old(cat.served) + 1
              && cat.value == old(cat.AfterRivals()) && e == if cat.faults(old(cat.served)) then None else Some(cat.value)
    ensures current != {} ==>
              && cat.seen == old(cat.seen) && cat.served == old(cat.served) && cat.value == old(cat.value)
              && e == Some(Some(Encoding(current)))
  {
    if current == {} {
      e := cat.GetRef();
    } else {
      var bytes := Encode(current);
      e := Some(Some(bytes));
    }
  }

  /** The new set, its encoding and the CAS. */
  method SwapIn(cat: Catalog, current: set<OpId>, oldIds: seq<OpId>, newId: OpId, expected: RefValue)
    returns (r: Option<CasOutcome>, ghost held: RefValue)
    requires RealIds(current) && RealIds({newId})
    modifies cat
    ensures cat.seen == old(cat.seen) + [held] && cat.served == old(cat.served) + 1 && held == old(cat.AfterRivals())
    ensures r.None? <==> cat.faults(old(cat.served))
    ensures Settles(held, expected, IsAdvance(cat.value, current, oldIds, newId), cat.value, r)
  {
    var next := NextHeads(current, oldIds, newId);
    EncodedHeads(next);
    var newBytes := Encode(next);
    held := cat.AfterRivals();
    r := cat.CasRef(expected, Some(newBytes));
  }

  /** Nobody else wrote before the requests `from` to `to`. */
  ghost predicate Quiet(rivals: nat -> Option<RefValue>, from: nat, to: nat) {
    forall k :: from <= k < to ==> rivals(k).None?
  }

  /** An iteration with nobody around wins exactly on a value it can replace; otherwise it changes nothing. */
  ghost predicate Undisturbed(before: RefValue, after: RefValue, oldIds: seq<OpId>, newId: OpId, r: Result<CasOutcome, TurnError>) {
    && (r == Ok(Updated) <==> Replaceable(before))
    && (r == Ok(Updated) ==> IsAdvance(after, Heads(before), oldIds, newId))
    && (r != Ok(Updated) ==> after == before)
    && (r.Err? <==> !Readable(before))
  }

  /** Undisturbed, the precondition is the value read exactly if that can be replaced. */
  lemma AloneEnds(v: RefValue, expected: RefValue, after: RefValue, oldIds: seq<OpId>, newId: OpId, outcome: CasOutcome)
    requires Readable(v) && RealIds(Heads(v)) && expected == if Heads(v) == {} then v else Some(Encoding(Heads(v)))
    requires Settles(v, expected, IsAdvance(after, Heads(v), oldIds, newId), after, Some(outcome))
    ensures Undisturbed(v, after, oldIds, newId, Ok(outcome))
  {
    if v.Some? { DecodeThenEncode(v.value); }
  }

  /** The reads got through, so the CAS decides. */
  lemma ExplainedByCas(faults: nat -> bool, from: nat, to: nat, first: RefValue, outcome: Option<CasOutcome>)
    requires to == from + 2 || (to == from + 3 && !faults(from + 1))
    requires Readable(first) && !faults(from) && (outcome.None? <==> faults(to - 1))
    ensures Explained(faults, from, to, first, if outcome.Some? then Ok(outcome.value) else Err(CasFailed))
  {
    assert outcome.Some? ==> NoFaults(faults, from, to);
  }

  /** The second read failed. */
  lemma ExplainedByRead(faults: nat -> bool, from: nat, first: RefValue)
    requires Readable(first) && !faults(from) && faults(from + 1)
    ensures Explained(faults, from, from + 2, first, Err(ReadFailed))
  {
    assert !NoFaults(faults, from, from + 2);
  }

  /** One iteration of the loop: the reads, the new set, the CAS. */
  method Iterate(cat: Catalog, oldIds: seq<OpId>, newId: OpId) returns (r: Result<CasOutcome, TurnError>, ghost t: Turn)
    requires RealIds({newId})
    modifies cat
    ensures old(cat.seen) < cat.seen && |cat.seen| == |old(cat.seen)| + cat.served - old(cat.served)
    ensures r.Ok? ==> t.first == |old(cat.seen)| && t.cas == |cat.seen| - 1
    ensures TurnEnds(cat.seen, t, oldIds, newId, cat.value, r)
    ensures Explained(cat.faults, old(cat.served), cat.served, cat.seen[|old(cat.seen)|], r)
    ensures Quiet(cat.rivals, old(cat.served), cat.served) && NoFaults(cat.faults, old(cat.served), cat.served) ==>
              Undisturbed(old(cat.value), cat.value, oldIds, newId, r)
  {
    ghost var before, value, from := cat.seen, cat.value, cat.served;
    var current := ReadSet(cat);
    ghost var first := cat.value;
    t := TurnFrom(cat.seen, |before|);
    if current.Err? { return Err(current.error), t; }
    var expected := ExpectedFor(cat, current.value);
    if expected.None? {
      ExplainedByRead(cat.faults, from, first);
      return Err(ReadFailed), t;
    }
    var outcome;
    ghost var held;
    outcome, held := SwapIn(cat, current.value, oldIds, newId, expected.value);
    assert cat.seen == before + SeenBy(first, expected.value, held);
    TurnSettled(before, first, held, expected.value, oldIds, newId, cat.value, outcome);
    ExplainedByCas(cat.faults, from, cat.served, first, outcome);
    r := if outcome.Some? then Ok(outcome.value) else Err(CasFailed);
    if Quiet(cat.rivals, from, cat.served) && outcome.Some? {
      assert first == value && held == value;
      AloneEnds(value, expected.value, cat.value, oldIds, newId, outcome.value);
    }
  }

  datatype UpdateResult = UpdateOk | UpdateFailed(error: TurnError) | NoConvergence

  /**
   * On success the new value is the one computed from the turn's own first read
   * and replaced what the ref held at the CAS; a failure leaves the ref to the
   * rivals or has installed it all the same; running out of retries means 64
   * turns, one after the other, each lost its CAS.
   */
  method UpdateOpHeads(cat: Catalog, oldIds: seq<OpId>, newId: OpId)
    returns (r: UpdateResult, ghost won: Turn, ghost lost: seq<Turn>)
    requires RealIds({newId})
    modifies cat
    ensures |cat.seen| > 0
    ensures r == UpdateOk ==> won.cas == |cat.seen| - 1 && Installed(cat.seen, won, oldIds, newId, cat.value)
    ensures r != UpdateOk ==>
              || cat.value == cat.seen[|cat.seen| - 1]
              || (r == UpdateFailed(CasFailed) && Installed(cat.seen, won, oldIds, newId, cat.value))
    ensures r == NoConvergence ==> |lost| == MAX_RETRIES && LostTurns(cat.seen, lost)
    ensures old(cat.served) < cat.served && |cat.seen| == |old(cat.seen)| + cat.served - old(cat.served)
    ensures !r.UpdateFailed? ==> NoFaults(cat.faults, old(cat.served), cat.served)
    ensures r.UpdateFailed? && !r.error.BadValue? ==> cat.faults(cat.served - 1)
    ensures r.UpdateFailed? && r.error.BadValue? ==>
              var last := cat.seen[|cat.seen| - 1]; last.Some? && Decode(last.value) == Err(r.error.error)
    ensures Quiet(cat.rivals, old(cat.served), cat.served) && NoFaults(cat.faults, old(cat.served), cat.served) ==>
              && (r == UpdateOk <==> Replaceable(old(cat.value)))
              && (r.UpdateFailed? <==> !Readable(old(cat.value)))
              && (r == UpdateOk ==> Heads(cat.value) == Advanced(old(Heads(cat.value)), Elems(oldIds), newId))
              && (r != UpdateOk ==> cat.value == old(cat.value))
  {
    lost := [];
    won := Turn(0, 0, 0);
    for attempt := 0 to MAX_RETRIES
      invariant |lost| == attempt
      invariant attempt > 0 ==> |cat.seen| > 0 && cat.value == cat.seen[|cat.seen| - 1]
      invariant LostTurns(cat.seen, lost)
      invariant old(cat.served) <= cat.served && |cat.seen| == |old(cat.seen)| + cat.served - old(cat.served)
      invariant NoFaults(cat.faults, old(cat.served), cat.served) && (attempt > 0 ==> old(cat.served) < cat.served)
      invariant Quiet(cat.rivals, old(cat.served), cat.served) ==>
                  && cat.value == old(cat.value)
                  && (attempt > 0 ==> Readable(old(cat.value)) && !Replaceable(old(cat.value)))
    {
      ghost var before := cat.seen;
      var step, turn := Iterate(cat, oldIds, newId);
      if step.Err? { return UpdateFailed(step.error), turn, lost; }
      if step.value.Updated? { return UpdateOk, turn, lost; }
      OneMoreLost(before, cat.seen, lost, turn);
      lost := lost + [turn];
    }
    return NoConvergence, won, lost;
  }

  /** A won turn replaced exactly the heads it had read, unless the ref appeared in between. */
  lemma WonTurnExactIff(seen: seq<RefValue>, t: Turn, oldIds: set<OpId>, newId: OpId)
    requires t.cas < |seen| && TurnOf(seen, t, seen[t.cas])
    ensures var first, before := Heads(seen[t.first]), Heads(seen[t.cas]);
            Advanced(first, oldIds, newId) == Advanced(before, oldIds, newId)
            <==> first != {} || before <= oldIds + {newId}
  {
    if Heads(seen[t.first]) != {} {
      EncodedHeads(Heads(seen[t.first]));
    }
  }

  /** If the ref only ever held canonical values, a lost turn saw it change between read and CAS. */
  lemma LostTurnSawChange(seen: seq<RefValue>, t: Turn)
    requires LostTurn(seen, t)
    requires seen[t.first].Some? && Decode(seen[t.first].value).Ok? ==> Canonical(seen[t.first].value)
    ensures t.first <= t.read < t.cas < |seen| && seen[t.read] != seen[t.cas]
  {
    if Heads(seen[t.first]) != {} {
      DecodeThenEncode(seen[t.first].value);
    }
  }
}
