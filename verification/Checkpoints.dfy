/**
 The checkpoint history of src/core/repair_system/state_roller.c: a list, newest first,
 whose tail is trimmed on every create.
 */
module Checkpoints {
  import opened Words
  import opened Lists
  import opened CStrings
  import opened Counters

  datatype Checkpoint = Checkpoint(sequence: nat, data: seq<Byte>)

  /** `Faulted`: the trimming loop followed a null link. */
  datatype Outcome = Success | InvalidArgument | OutOfMemory | Faulted

  /**
   How many of `n` checkpoints are kept. The 32-bit count never exceeds the greatest limit,
   and with a limit of 0 the loop does not touch the only checkpoint.
   */
  function Kept(limit: nat, n: nat): nat {
    if 0 < limit < TWO_32 - 1 && n > limit then limit else n
  }

  /** The history after one more checkpoint. */
  function Created(limit: nat, history: seq<Checkpoint>, c: Checkpoint): (r: seq<Checkpoint>)
    ensures |r| == Kept(limit, |history| + 1)
  {
    ([c] + history)[..Kept(limit, |history| + 1)]
  }

  /** The history after creating `cs` one after the other. */
  function AllCreated(limit: nat, cs: seq<Checkpoint>): seq<Checkpoint> {
    if cs == [] then [] else Created(limit, AllCreated(limit, cs[..|cs| - 1]), cs[|cs| - 1])
  }

  /** After n creates the history is the newest min(n, limit) of them, newest first. */
  lemma {:induction false} WindowIsNewest(limit: nat, cs: seq<Checkpoint>)
    ensures |AllCreated(limit, cs)| == Kept(limit, |cs|)
    ensures forall k :: 0 <= k < Kept(limit, |cs|) ==> AllCreated(limit, cs)[k] == cs[|cs| - 1 - k]
  {
    if cs != [] {
      WindowIsNewest(limit, cs[..|cs| - 1]);
    }
  }

  /** A create on this history follows a null link. */
  predicate FaultsOn(limit: nat, history: seq<Checkpoint>) {
    limit <= 1 && history != []
  }

  /** Creating `cs` follows no null link exactly when the limit is at least 2 or there is at most one. */
  lemma FaultsExactly(limit: nat, cs: seq<Checkpoint>)
    ensures (forall k :: 0 <= k < |cs| ==> !FaultsOn(limit, AllCreated(limit, cs[..k])))
       <==> limit >= 2 || |cs| <= 1
  {
    if limit <= 1 && |cs| > 1 {
      WindowIsNewest(limit, cs[..1]);
      assert FaultsOn(limit, AllCreated(limit, cs[..1]));
    }
    forall k | 0 <= k < |cs| ensures limit >= 2 || |cs| <= 1 ==> !FaultsOn(limit, AllCreated(limit, cs[..k])) {
      assert cs[..0] == [];
    }
  }

  predicate HasSequence(history: seq<Checkpoint>, sequence: nat) {
    exists k :: 0 <= k < |history| && history[k].sequence == sequence
  }

  /** A sequence can be rolled back to exactly when one of the newest min(n, limit) creates had it. */
  lemma RollbackWindow(limit: nat, cs: seq<Checkpoint>, sequence: nat)
    ensures HasSequence(AllCreated(limit, cs), sequence)
       <==> exists i :: |cs| - Kept(limit, |cs|) <= i < |cs| && cs[i].sequence == sequence
  {
    WindowIsNewest(limit, cs);
    var history := AllCreated(limit, cs);
    forall i | |cs| - Kept(limit, |cs|) <= i < |cs| && cs[i].sequence == sequence
      ensures HasSequence(history, sequence)
    {
      assert history[|cs| - 1 - i] == cs[i];
    }
  }

  class StateRoller {
    const limit: nat
    var checkpoints: Node?<Checkpoint>
    ghost var spine: seq<Node<Checkpoint>>

    ghost predicate Valid()
      reads this, spine
    {
      && Chain(checkpoints, spine) && limit < TWO_32
      && (limit < TWO_32 - 1 ==> |spine| <= limit || |spine| <= 1)
    }

    ghost function History(): seq<Checkpoint>
      reads this, spine
    {
      Values(spine)
    }

    constructor (limit: nat)
      requires limit < TWO_32
      ensures Valid() && this.limit == limit && spine == [] && History() == []
    {
      this.limit := limit;
      checkpoints, spine := null, [];
    }

    /**
     `ps14_repair_create_checkpoint`. With a limit of 0 or 1 the second create follows a
     null link; with a greater one none ever does.
     */
    method Create(sequence: nat, data: Option<seq<Byte>>, gotMemory: bool) returns (outcome: Outcome)
      requires Valid()
      modifies this, spine
      ensures outcome.InvalidArgument? <==> data == None || data == Some([])
      ensures outcome.OutOfMemory? <==> !outcome.InvalidArgument? && !gotMemory
      ensures outcome.Faulted? <==>
                !outcome.InvalidArgument? && gotMemory && FaultsOn(limit, old(History()))
      ensures !outcome.Faulted? ==> Valid()
      ensures outcome.Success? ==> History() == Created(limit, old(History()), Checkpoint(sequence, data.value))
      ensures !outcome.Success? && !outcome.Faulted? ==> spine == old(spine) && History() == old(History())
    {
      hide Chain;
      if data == None || data == Some([]) {
        return InvalidArgument;
      }
      if !gotMemory {
        return OutOfMemory;
      }
      var node := new Node(Checkpoint(sequence, data.value), checkpoints);
      Pushed(checkpoints, spine, node);
      checkpoints := node;
      spine := [node] + spine;
      var count := CountNodes(checkpoints, spine);
      outcome := Trim(count);
    }

    /** The trimming loop. */
    method Trim(count: nat) returns (outcome: Outcome)
      requires Chain(checkpoints, spine) && spine != [] && limit < TWO_32
      requires count == |spine| % TWO_32 && (limit < TWO_32 - 1 ==> |spine| <= limit + 1 || |spine| <= 2)
      modifies this`spine, spine`next
      ensures outcome.Success? || outcome.Faulted?
      ensures outcome.Faulted? <==> limit <= 1 && |old(spine)| > 1
      ensures outcome.Success? ==>
                var kept := Kept(limit, |old(spine)|);
                && 0 < kept <= |old(spine)| && spine == old(spine)[..kept] && Chain(checkpoints, spine)
                && History() == old(History())[..kept]
    {
      hide Chain, Values;
      var left := count;
      ghost var all := spine;
      ghost var values := Values(spine);
      ChainLength(checkpoints, spine);
      SmallCountOf(|spine|, limit);
      while left > limit && checkpoints.next != null
        invariant Chain(checkpoints, spine) && checkpoints != null && 0 < |spine| <= |all|
        invariant checkpoints.next != null <==> |spine| > 1
        invariant spine == all[..|spine|] && History() == values[..|spine|]
        invariant limit < TWO_32 - 1 ==> left == |spine|
        invariant limit < TWO_32 - 1 ==> |spine| == |all| || (limit > 1 && |spine| >= limit)
        invariant limit == TWO_32 - 1 ==> left <= limit && spine == all
        decreases |spine|
      {
        var faulted := DropLast(checkpoints, spine);
        if faulted {
          return Faulted;
        }
        spine := spine[..|spine| - 1];
        left := left - 1;
        ChainLength(checkpoints, spine);
      }
      outcome := Success;
    }

    /** `ps14_repair_rollback_to_sequence`. */
    method RollbackToSequence(sequence: nat) returns (found: bool)
      requires Valid()
      ensures found <==> HasSequence(History(), sequence)
    {
      hide Chain;
      var checkpoint := checkpoints;
      ghost var i := 0;
      ChainAt(checkpoints, spine, 0);
      while checkpoint != null
        invariant i <= |spine| && checkpoint == At(spine, i)
        invariant forall k :: 0 <= k < i ==> spine[k].value.sequence != sequence
        decreases |spine| - i
      {
        if checkpoint.value.sequence == sequence {
          assert History()[i].sequence == sequence;
          return true;
        }
        ChainAt(checkpoints, spine, i);
        checkpoint := checkpoint.next;
        i := i + 1;
      }
      return false;
    }

    /** `ps14_repair_rollback_to_last_good`: the newest checkpoint, unless its sequence is 0. */
    method RollbackToLastGood() returns (found: bool)
      requires Valid()
      ensures found <==> History() != [] && History()[0].sequence != 0
    {
      var last := if checkpoints != null then checkpoints.value.sequence else 0;
      if last == 0 {
        return false;
      }
      assert History()[0].sequence == last;
      found := RollbackToSequence(last);
    }
  }

  lemma SmallCountOf(n: nat, limit: nat)
    requires limit < TWO_32 && (limit < TWO_32 - 1 ==> n <= limit + 1 || n <= 2)
    ensures limit < TWO_32 - 1 ==> n % TWO_32 == n
    ensures n % TWO_32 < TWO_32
  {
  }

  lemma ChainLength(head: Node?<Checkpoint>, spine: seq<Node<Checkpoint>>)
    requires Chain(head, spine) && spine != []
    ensures head == spine[0] && (head.next != null <==> |spine| > 1)
  {
  }

  /** Frees the last of at least two nodes, or faults when there are just two. */
  method DropLast(head: Node<Checkpoint>, ghost spine: seq<Node<Checkpoint>>) returns (faulted: bool)
    requires Chain(head, spine) && |spine| > 1
    modifies spine`next
    ensures faulted <==> |spine| == 2
    ensures faulted ==> Chain(head, spine)
    ensures !faulted ==> Chain(head, spine[..|spine| - 1])
    ensures !faulted ==> Values(spine[..|spine| - 1]) == old(Values(spine))[..|spine| - 1]
  {
    hide Chain, Values;
    ChainAt(head, spine, 0);
    ghost var values := Values(spine);
    var last := BeforeLast(head.next, spine);
    if last.next == null {
      return true;
    }
    ChainDistinct(head, spine);
    LinksExceptLast(head, spine);
    last.next := null;
    CutOff(head, spine, |spine| - 1);
    assert Values(spine) == values;
    return false;
  }

  method CountNodes(head: Node?<Checkpoint>, ghost spine: seq<Node<Checkpoint>>) returns (count: nat)
    requires Chain(head, spine)
    ensures count == |spine| % TWO_32
  {
    hide Up;
    count := 0;
    var curr := head;
    ghost var i := 0;
    while curr != null
      invariant i <= |spine| && curr == At(spine, i) && count == i % TWO_32
      decreases |spine| - i
    {
      UpCounts(i);
      count := Up(count);
      curr := curr.next;
      i := i + 1;
    }
  }

  /** From the second node on, the one before the last, or the last when there is none before. */
  method BeforeLast(second: Node<Checkpoint>, ghost spine: seq<Node<Checkpoint>>) returns (r: Node<Checkpoint>)
    requires |spine| > 1 && Chain(spine[0], spine) && spine[1] == second
    ensures r == spine[if |spine| == 2 then 1 else |spine| - 2]
    ensures r.next == null <==> |spine| == 2
  {
    r := second;
    ghost var i := 1;
    while r.next != null && r.next.next != null
      invariant 1 <= i < |spine| && r == spine[i] && (|spine| > 2 ==> i <= |spine| - 2)
      decreases |spine| - i
    {
      assert spine[i].next == At(spine, i + 1) && spine[i + 1].next == At(spine, i + 2);
      r := r.next;
      i := i + 1;
    }
    assert spine[i].next == At(spine, i + 1);
    if i + 1 < |spine| {
      assert spine[i + 1].next == At(spine, i + 2);
    }
  }
}
