/**
 The opcode scanners of src/core/advanced/hook_detector.c and tamper_detector.c. A region
 is the first `size` bytes of an array; no array is the null address.
 */
module OpcodeScan {
  import opened Words
  import opened Counters

  const NOP: Byte := 0x90
  const CALL: Byte := 0xE8
  const JMP: Byte := 0xE9
  const SHORT_JMP: Byte := 0xEB
  const INDIRECT: Byte := 0xFF

  /** The bytes a scanner is given. */
  ghost function Region(address: array?<Byte>, size: nat): seq<Byte>
    requires address != null ==> size <= address.Length
    reads address
  {
    if address == null then [] else address[..size]
  }

  predicate Jump(b: Byte) {
    b == CALL || b == JMP || b == SHORT_JMP
  }

  /** Five NOPs from `i` on. */
  predicate Sled(s: seq<Byte>, i: int) {
    0 <= i && i + 5 <= |s| && forall k :: i <= k < i + 5 ==> s[k] == NOP
  }

  predicate AfterNop(s: seq<Byte>, i: nat)
    requires i <= |s|
  {
    i > 0 && s[i - 1] == NOP
  }

  /**
   What is counted at an offset: a jump or call not directly after a NOP, or the start of a
   maximal run of NOPs that is at least five long.
   */
  predicate HookAt(s: seq<Byte>, i: nat)
    requires i < |s|
  {
    !AfterNop(s, i) && (Jump(s[i]) || Sled(s, i))
  }

  /** The counted offsets before `end`. */
  ghost function Hooks(s: seq<Byte>, end: int): set<nat>
    requires end <= |s|
  {
    set i: nat | i < end && HookAt(s, i)
  }

  lemma HooksStep(s: seq<Byte>, i: nat)
    requires i < |s|
    ensures Hooks(s, i + 1) == if HookAt(s, i) then Hooks(s, i) + {i} else Hooks(s, i)
    ensures i !in Hooks(s, i)
  {
    hide HookAt;
  }

  /** A run of NOPs and the byte behind it add no more than the run's start. */
  lemma HooksOverRun(s: seq<Byte>, i: nat, e: nat)
    requires i < e <= |s| && !AfterNop(s, i)
    requires forall k :: i <= k < e ==> s[k] == NOP
    requires e == |s| || s[e] != NOP
    ensures HookAt(s, i) <==> e - i >= 5
    ensures forall end: nat :: i < end <= |s| && end <= e + 1 ==> Hooks(s, end) == Hooks(s, i + 1)
  {
    forall end: nat | i < end <= |s| && end <= e + 1 ensures Hooks(s, end) == Hooks(s, i + 1) {
      forall j: nat | i < j < end ensures !HookAt(s, j) {
        assert s[j - 1] == NOP;
      }
    }
  }

  /** `ps14_hook_scan_region`: the loop over a run of NOPs moves the outer loop's index. */
  method HookScanRegion(address: array?<Byte>, size: nat) returns (hooksFound: nat)
    requires address != null ==> size <= address.Length
    ensures hooksFound == |Hooks(Region(address, size), |Region(address, size)| - 5)| % TWO_32
  {
    hide HookAt, Jump, Up;
    if address == null || size < 5 {
      return 0;
    }
    ghost var s := Region(address, size);
    hooksFound := 0;
    ghost var found := 0;
    var i := 0;
    while i < size - 5
      invariant found == |Hooks(s, if i < size - 5 then i else size - 5)|
      invariant hooksFound == found % TWO_32
      invariant i <= size + 1 && (i < size - 5 ==> !AfterNop(s, i))
    {
      UpCounts(found);
      HooksStep(s, i);
      assert s[i] == address[i];
      JumpNotNop(s[i]);
      if s[i] != NOP {
        JumpIsHook(s, i);
      }
      if Jump(address[i]) {
        hooksFound := Up(hooksFound);
        found := found + 1;
      } else if address[i] == NOP {
        var nopCount := 0;
        ghost var start := i;
        while i < size && address[i] == NOP
          invariant start <= i <= size && nopCount == i - start
          invariant forall k :: start <= k < i ==> s[k] == NOP
        {
          nopCount := nopCount + 1;
          i := i + 1;
        }
        assert i < size ==> s[i] == address[i];
        assert i > start;
        HooksOverRun(s, start, i);
        if nopCount >= 5 {
          hooksFound := Up(hooksFound);
          found := found + 1;
        }
      }
      assert i < size ==> s[i] != NOP;
      i := i + 1;
    }
  }

  lemma JumpNotNop(b: Byte)
    ensures Jump(b) ==> b != NOP
  {
  }

  lemma JumpIsHook(s: seq<Byte>, i: nat)
    requires i < |s| && !AfterNop(s, i) && s[i] != NOP
    ensures HookAt(s, i) <==> Jump(s[i])
  {
  }

  /** `ps14_tamper_check_nop_sled`. */
  method CheckNopSled(address: array?<Byte>, size: nat) returns (found: bool)
    requires address != null ==> size <= address.Length
    ensures found <==> exists i :: Sled(Region(address, size), i)
  {
    if address == null || size < 5 {
      return false;
    }
    ghost var s := Region(address, size);
    var consecutive := 0;
    var i := 0;
    while i < size
      invariant i <= size && consecutive <= i && consecutive < 5
      invariant forall k :: i - consecutive <= k < i ==> s[k] == NOP
      invariant consecutive < i ==> s[i - consecutive - 1] != NOP
      invariant forall k :: Sled(s, k) ==> k + 5 > i
    {
      if address[i] == NOP {
        consecutive := consecutive + 1;
        if consecutive >= 5 {
          assert Sled(s, i - 4);
          return true;
        }
      } else {
        consecutive := 0;
      }
      i := i + 1;
    }
    return false;
  }

  /** The start of the run a sled lies in. */
  lemma {:induction false} RunStart(s: seq<Byte>, i: nat) returns (start: nat)
    requires Sled(s, i)
    ensures start <= i && Sled(s, start) && !AfterNop(s, start)
    decreases i
  {
    start := i;
    if AfterNop(s, i) {
      start := RunStart(s, i - 1);
    }
  }

  /**
   The two scanners agree on whether there is a sled, except for a region whose only five
   NOPs in a row are its last five bytes: the check sees those and the scan does not.
   */
  lemma SledAgreement(s: seq<Byte>)
    ensures (exists i: nat :: i in Hooks(s, |s| - 5) && s[i] == NOP)
       <==> (exists i :: Sled(s, i)) && !(Sled(s, |s| - 5) && forall i :: Sled(s, i) ==> i == |s| - 5)
  {
    forall i | Sled(s, i) && i != |s| - 5 ensures exists j: nat :: j in Hooks(s, |s| - 5) && s[j] == NOP {
      var start := RunStart(s, i);
      assert start in Hooks(s, |s| - 5) && s[start] == NOP;
    }
    forall i: nat | i in Hooks(s, |s| - 5) && s[i] == NOP ensures Sled(s, i) && i != |s| - 5 {
    }
  }

  /** Five NOPs and nothing else: the check sees the sled, the scan counts nothing. */
  lemma SledMissed()
    ensures var s := [NOP, NOP, NOP, NOP, NOP];
      Sled(s, 0) && Hooks(s, |s| - 5) == {}
  {
  }

  predicate Unexpected(b: Byte) {
    Jump(b) || b == INDIRECT
  }

  /** `ps14_tamper_check_unexpected_jumps`. */
  method CheckUnexpectedJumps(address: array?<Byte>, size: nat) returns (found: bool)
    requires address != null ==> size <= address.Length
    ensures found <==>
              size >= 16 && exists i :: 0 <= i < |Region(address, size)| && Unexpected(Region(address, size)[i])
  {
    if address == null || size < 16 {
      return false;
    }
    var i := 0;
    while i < size
      invariant i <= size
      invariant forall k :: 0 <= k < i ==> !Unexpected(address[k])
    {
      var opcode := address[i];
      if opcode == CALL || opcode == JMP || opcode == SHORT_JMP || opcode == INDIRECT {
        assert Unexpected(Region(address, size)[i]);
        return true;
      }
      i := i + 1;
    }
    return false;
  }

  /** An opcode of interest at least eight bytes from either end. */
  ghost predicate Inside(s: seq<Byte>, opcode: Byte) {
    exists i :: 8 <= i < |s| - 8 && s[i] == opcode
  }

  /** `ps14_hook_check_inline_hooks`. */
  method CheckInlineHooks(address: array?<Byte>, size: nat) returns (found: bool)
    requires address != null ==> size <= address.Length
    ensures found <==> Inside(Region(address, size), JMP) || Inside(Region(address, size), CALL)
  {
    if address == null || size < 16 {
      return false;
    }
    ghost var s := Region(address, size);
    var i := 8;
    while i < size - 8
      invariant 8 <= i <= size
      invariant forall k :: 8 <= k < i ==> s[k] != JMP && s[k] != CALL
    {
      assert s[i] == address[i];
      if address[i] == JMP || address[i] == CALL {
        return true;
      }
      i := i + 1;
    }
    return false;
  }

  /** `ps14_tamper_check_inline_hooks`. */
  method CheckInlineTampering(address: array?<Byte>, size: nat) returns (found: bool)
    requires address != null ==> size <= address.Length
    ensures found <==>
              Inside(Region(address, size), JMP) || Inside(Region(address, size), CALL)
              || Inside(Region(address, size), SHORT_JMP)
  {
    if address == null || size < 16 {
      return false;
    }
    ghost var s := Region(address, size);
    var i := 8;
    while i < size - 8
      invariant 8 <= i <= size
      invariant forall k :: 8 <= k < i ==> s[k] != JMP && s[k] != CALL && s[k] != SHORT_JMP
    {
      var opcode := address[i];
      assert s[i] == opcode;
      if opcode == JMP || opcode == CALL || opcode == SHORT_JMP {
        return true;
      }
      i := i + 1;
    }
    return false;
  }
}
