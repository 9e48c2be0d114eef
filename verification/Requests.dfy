/**
 Requests of the guest to the outside and the responses to them: the status cell, the result
 left in register `a0`, and the contents of the last reveal request. The size limits and the
 error codes of the interface are parameters.
 */
module Requests {
  import opened Words
  import opened Memory
  import opened Machine

  datatype Status = Evaluating | WaitingForInput | WaitingForReveal

  datatype SbiError = Failed | NotSupported | InvalidAddress

  /** The calls that concern requests; every other one is answered as not supported. */
  datatype SbiCall = InboxNext | Reveal | Unsupported

  /** Limits and error codes that the interface fixes. */
  datatype Interface = Interface(maxInput: nat, maxReveal: nat, maxRequest: nat, code: SbiError -> int)

  /** Error codes are negative, and no count that is returned looks like one. */
  ghost predicate Sensible(i: Interface) {
    && (forall e :: -TWO63 <= i.code(e) < 0)
    && i.maxInput < TWO63 && i.maxReveal < TWO63
  }

  const A0: Reg := 10
  const A1: Reg := 11
  const A2: Reg := 12
  const A3: Reg := 13

  // ----- accesses of any length -----

  /** The bounds check of the source: the length is at most what is left after the address. */
  predicate Reachable(m: Mem, addr: u64, len: nat) { len == 0 || addr + len <= |m.data| }

  predicate AllPages(m: Mem, pages: seq<bool>, addr: u64, len: nat)
    requires Reachable(m, addr, len) && |pages| == |m.readable|
  {
    len == 0 || forall p :: addr / PAGE_SIZE <= p <= (addr + len - 1) / PAGE_SIZE ==> pages[p]
  }

  function ReadAll(m: Mem, addr: u64, len: nat): (r: Option<seq<byte>>)
    ensures r.Some? ==> |r.value| == len
  {
    if Reachable(m, addr, len) && AllPages(m, m.readable, addr, len) then
      Some(if len == 0 then [] else m.data[addr..addr + len])
    else None
  }

  function WriteAll(m: Mem, addr: u64, bytes: seq<byte>): Option<Mem> {
    if Reachable(m, addr, |bytes|) && AllPages(m, m.writable, addr, |bytes|) then
      Some(if bytes == [] then m else m.(data := Splice(m.data, addr, bytes)))
    else None
  }

  /** What was written is read back, where it may be read. */
  lemma WrittenIsRead(m: Mem, addr: u64, bytes: seq<byte>)
    requires WriteAll(m, addr, bytes).Some? && ReadAll(m, addr, |bytes|).Some?
    ensures ReadAll(WriteAll(m, addr, bytes).value, addr, |bytes|) == Some(bytes)
  {
    if bytes != [] {
      var m' := WriteAll(m, addr, bytes).value;
      assert m'.data[addr..addr + |bytes|] == bytes;
    }
  }

  /** Bytes can be read exactly when all are in memory and readable. */
  lemma ReadAllMeans(m: Mem, addr: u64, len: nat)
    ensures ReadAll(m, addr, len).Some? <==>
            len == 0 || (addr + len <= |m.data| && Permitted(m.readable, addr, len))
    ensures ReadAll(m, addr, len).Some? ==>
              forall k :: 0 <= k < len ==> ReadAll(m, addr, len).value[k] == m.data[addr + k]
  {
    hide Permitted;
    if len != 0 && addr + len <= |m.data| { PagesIff(m, m.readable, addr, len); }
  }

  /** They can be written exactly when all are in memory and writable, and then these and no others change. */
  lemma WriteAllMeans(m: Mem, addr: u64, bytes: seq<byte>)
    ensures WriteAll(m, addr, bytes).Some? <==>
            bytes == [] || (addr + |bytes| <= |m.data| && Permitted(m.writable, addr, |bytes|))
    ensures WriteAll(m, addr, bytes).Some? ==>
              var m' := WriteAll(m, addr, bytes).value;
              && m' == m.(data := m'.data) && |m'.data| == |m.data|
              && forall a: nat :: a < |m.data| ==>
                   m'.data[a] == if addr <= a < addr + |bytes| then bytes[a - addr] else m.data[a]
  {
    hide Permitted;
    if bytes != [] && addr + |bytes| <= |m.data| { PagesIff(m, m.writable, addr, |bytes|); }
  }

  lemma PagesIff(m: Mem, pages: seq<bool>, addr: u64, len: nat)
    requires 0 < len && addr + len <= |m.data| && |pages| == |m.readable|
    ensures AllPages(m, pages, addr, len) <==> Permitted(pages, addr, len)
  {
    if Permitted(pages, addr, len) {
      forall p | addr / PAGE_SIZE <= p <= (addr + len - 1) / PAGE_SIZE ensures pages[p] {
        var a := if p == addr / PAGE_SIZE then addr else p * PAGE_SIZE;
        assert addr <= a < addr + len && a / PAGE_SIZE == p;
      }
    }
  }

  function Least(a: nat, b: nat): (r: nat)
    ensures r <= a && r <= b && (r == a || r == b)
  {
    if a < b then a else b
  }

  /** What is left in `a0`: an error code, or a number of bytes up to a bound. */
  ghost predicate Answer(i: Interface, a0: u64, bound: nat) {
    || a0 <= bound
    || exists e :: a0 == U64(i.code(e))
  }

  /** How many bytes of a payload the guest and the interface allow. */
  function InputSize(i: Interface, core: Core, payload: seq<byte>): (n: nat)
    ensures n <= |payload| && n <= core.XRead(A1) && n <= i.maxInput
    ensures n == |payload| || n == core.XRead(A1) || n == i.maxInput
  {
    Least(Least(|payload|, core.XRead(A1)), i.maxInput)
  }

  /**
   Payload, level and counter are delivered in this order; the first address that is refused ends
   the delivery, and what was written before it stays.
   */
  ghost predicate Delivered(i: Interface, core: Core, level: u64, counter: u64, payload: seq<byte>, m: Mem,
                            complete: bool) {
    var m1 := WriteAll(core.mem, core.XRead(A0), payload[..InputSize(i, core, payload)]);
    if m1 == None then m == core.mem && !complete
    else
      var m2 := Write(m1.value, core.XRead(A2), Word, level);
      if m2 == None then m == m1.value && !complete
      else
        var m3 := Write(m2.value, core.XRead(A3), Word, counter);
        if m3 == None then m == m2.value && !complete else m == m3.value && complete
  }

  /** A delivery is complete exactly when all three writes are allowed. */
  ghost predicate Deliverable(core: Core, n: nat) {
    && (n == 0 || (core.XRead(A0) + n <= |core.mem.data| && Permitted(core.mem.writable, core.XRead(A0), n)))
    && core.XRead(A2) + 4 <= |core.mem.data| && Permitted(core.mem.writable, core.XRead(A2), 4)
    && core.XRead(A3) + 4 <= |core.mem.data| && Permitted(core.mem.writable, core.XRead(A3), 4)
  }

  /** The words for level and counter do not overlap the buffer. */
  predicate Apart(addr: u64, n: nat, word: u64) { word + 4 <= addr || addr + n <= word }

  /**
   What a complete delivery leaves in memory, byte by byte: the counter, the level where the
   counter did not go, and the payload where neither went.
   */
  lemma DeliveredBytes(i: Interface, core: Core, level: u64, counter: u64, payload: seq<byte>, m: Mem, complete: bool)
    requires Delivered(i, core, level, counter, payload, m, complete)
    ensures complete <==> Deliverable(core, InputSize(i, core, payload))
    ensures complete ==>
              && m == core.mem.(data := m.data) && |m.data| == |core.mem.data|
              && forall a: nat :: a < |m.data| ==>
                   m.data[a] == if core.XRead(A3) <= a < core.XRead(A3) + 4 then Digit(counter, a - core.XRead(A3))
                                else if core.XRead(A2) <= a < core.XRead(A2) + 4 then Digit(level, a - core.XRead(A2))
                                else if core.XRead(A0) <= a < core.XRead(A0) + InputSize(i, core, payload)
                                     then payload[a - core.XRead(A0)]
                                else core.mem.data[a]
  {
    hide WriteAll, Write, Permitted, Digit, InputSize;
    var bytes := payload[..InputSize(i, core, payload)];
    WriteAllMeans(core.mem, core.XRead(A0), bytes);
    var m1 := WriteAll(core.mem, core.XRead(A0), bytes);
    if m1.Some? {
      WriteMeans(m1.value, core.XRead(A2), Word, level);
      var m2 := Write(m1.value, core.XRead(A2), Word, level);
      if m2.Some? { WriteMeans(m2.value, core.XRead(A3), Word, counter); }
    }
  }

  /** After a complete delivery the payload is read back from the buffer. */
  lemma DeliveredIsRead(i: Interface, core: Core, level: u64, counter: u64, payload: seq<byte>, m: Mem)
    requires Delivered(i, core, level, counter, payload, m, true)
    requires var n := InputSize(i, core, payload);
             && ReadAll(core.mem, core.XRead(A0), n).Some?
             && Apart(core.XRead(A0), n, core.XRead(A2)) && Apart(core.XRead(A0), n, core.XRead(A3))
    ensures var n := InputSize(i, core, payload); ReadAll(m, core.XRead(A0), n) == Some(payload[..n])
  {
    hide Delivered, ReadAll, Permitted, InputSize, Digit;
    var n, addr := InputSize(i, core, payload), core.XRead(A0);
    DeliveredBytes(i, core, level, counter, payload, m, true);
    ReadAllMeans(core.mem, addr, n);
    ReadAllMeans(m, addr, n);
    var r := ReadAll(m, addr, n).value;
    forall k | 0 <= k < n ensures r[k] == payload[..n][k] {
      assert r[k] == m.data[addr + k];
    }
    assert r == payload[..n];
  }

  /** The guest's reveal request, where it can be read. */
  function WantedReveal(i: Interface, core: Core): Option<seq<byte>> {
    ReadAll(core.mem, core.XRead(A0), Least(core.XRead(A1), i.maxRequest))
  }

  class Pvm {
    const interface: Interface
    var status: Status
    var core: Core

    /** The request cells: a buffer of fixed size, and the size that was asked for. */
    var requestBytes: seq<byte>
    var requestSize: u64

    /** How many requests were made and how many responses accepted. */
    ghost var inputsRequested: nat
    ghost var inputsAccepted: nat
    ghost var revealsRequested: nat
    ghost var revealsAccepted: nat

    /** The bytes of the latest reveal request. */
    ghost var latest: seq<byte>

    constructor (interface: Interface, core: Core)
      requires Sensible(interface)
      ensures Valid() && status == Evaluating && this.core == core && this.interface == interface
    {
      this.interface, this.core, status := interface, core, Evaluating;
      requestBytes, requestSize, latest := seq(interface.maxRequest, _ => 0), 0, [];
      inputsRequested, inputsAccepted, revealsRequested, revealsAccepted := 0, 0, 0, 0;
    }

    ghost predicate Valid()
      reads this
    {
      && Sensible(interface) && |requestBytes| == interface.maxRequest
      && inputsAccepted + (if status == WaitingForInput then 1 else 0) <= inputsRequested
      && revealsAccepted + (if status == WaitingForReveal then 1 else 0) <= revealsRequested
      && latest == requestBytes[..Least(requestSize, interface.maxRequest)]
    }

    /** Write an error code as the result. */
    method ReturnError(e: SbiError)
      requires Sensible(interface)
      modifies this`core
      ensures core == old(core).XWrite(A0, U64(interface.code(e)))
    {
      core := core.XWrite(A0, U64(interface.code(e)));
    }

    /** Write a value as the result, unless it would be taken for an error. */
    method ReturnValue(v: u64)
      requires Sensible(interface)
      modifies this`core
      ensures core == old(core).XWrite(A0, if S64(v) < 0 then U64(interface.code(Failed)) else v)
    {
      if S64(v) < 0 {
        ReturnError(Failed);
      } else {
        core := core.XWrite(A0, v);
      }
    }

    /** Handle a call of the guest. */
    method HandleTezos(call: SbiCall)
      requires Valid()
      modifies this
      ensures Valid()
      ensures call.InboxNext? ==> status == WaitingForInput && core == old(core) && latest == old(latest)
      ensures call.Reveal? ==>
                var wanted := WantedReveal(interface, old(core));
                if wanted.Some? then status == WaitingForReveal && latest == wanted.value && core == old(core)
                else status == old(status) && latest == old(latest)
                     && core == old(core).XWrite(A0, U64(interface.code(InvalidAddress)))
      ensures call.Unsupported? ==>
                status == old(status) && latest == old(latest)
                  && core == old(core).XWrite(A0, U64(interface.code(NotSupported)))
      ensures inputsAccepted == old(inputsAccepted) && revealsAccepted == old(revealsAccepted)
      ensures inputsRequested == old(inputsRequested) + (if call.InboxNext? then 1 else 0)
      ensures revealsRequested == old(revealsRequested)
              + (if call.Reveal? && WantedReveal(interface, old(core)).Some? then 1 else 0)
    {
      if call.InboxNext? {
        status := WaitingForInput;
        inputsRequested := inputsRequested + 1;
      } else if call.Reveal? {
        HandleReveal();
      } else {
        ReturnError(NotSupported);
      }
    }

    method HandleReveal()
      requires Valid()
      modifies this
      ensures Valid()
      ensures var wanted := WantedReveal(interface, old(core));
              if wanted.Some? then status == WaitingForReveal && latest == wanted.value && core == old(core)
              else status == old(status) && latest == old(latest)
                   && core == old(core).XWrite(A0, U64(interface.code(InvalidAddress)))
      ensures inputsAccepted == old(inputsAccepted) && revealsAccepted == old(revealsAccepted)
      ensures inputsRequested == old(inputsRequested)
      ensures revealsRequested == old(revealsRequested) + (if WantedReveal(interface, old(core)).Some? then 1 else 0)
    {
      var addr, size := core.XRead(A0), core.XRead(A1);
      var n := Least(size, interface.maxRequest);
      var buffer := ReadAll(core.mem, addr, n);
      if buffer == None {
        ReturnError(InvalidAddress);
        return;
      }
      requestBytes := buffer.value + requestBytes[n..];
      requestSize := size;
      status := WaitingForReveal;
      revealsRequested := revealsRequested + 1;
      latest := buffer.value;
    }

    /** The bytes of the latest reveal request. */
    method ToVec() returns (r: seq<byte>)
      requires Valid()
      ensures r == latest
    {
      r := requestBytes[..Least(requestSize, interface.maxRequest)];
    }

    /** Write the payload, the level and the counter to where the guest asked for them. */
    method WriteInput(level: u64, counter: u64, payload: seq<byte>) returns (n: Option<nat>)
      requires level < TWO32 && counter < TWO32
      modifies this`core
      ensures core == old(core).(mem := core.mem)
      ensures Delivered(interface, old(core), level, counter, payload, core.mem, n.Some?)
      ensures n.Some? ==> n.value == InputSize(interface, old(core), payload)
    {
      var size := InputSize(interface, core, payload);
      var m1 := WriteAll(core.mem, core.XRead(A0), payload[..size]);
      if m1 == None { return None; }
      core := core.(mem := m1.value);
      var m2 := Write(core.mem, core.XRead(A2), Word, level);
      if m2 == None { return None; }
      core := core.(mem := m2.value);
      var m3 := Write(core.mem, core.XRead(A3), Word, counter);
      if m3 == None { return None; }
      core := core.(mem := m3.value);
      return Some(size);
    }

    /** Provide input; `false`, and no change, when none was asked for. */
    method ProvideInput(level: u64, counter: u64, payload: seq<byte>) returns (accepted: bool)
      requires Valid() && level < TWO32 && counter < TWO32
      modifies this
      ensures Valid() && (accepted <==> old(status) == WaitingForInput)
      ensures !accepted ==> status == old(status) && core == old(core)
      ensures accepted ==>
                var n := InputSize(interface, old(core), payload);
                && status == Evaluating && Answer(interface, core.XRead(A0), n)
                && exists complete ::
                     && Delivered(interface, old(core), level, counter, payload, core.mem, complete)
                     && var a0 := if complete then n else U64(interface.code(InvalidAddress));
                     && core == old(core).(mem := core.mem).XWrite(A0, a0)
      ensures inputsAccepted == old(inputsAccepted) + (if accepted then 1 else 0)
      ensures inputsRequested == old(inputsRequested) && latest == old(latest)
    {
      if status != WaitingForInput { return false; }
      status := Evaluating;
      inputsAccepted := inputsAccepted + 1;
      var n := WriteInput(level, counter, payload);
      assert Delivered(interface, old(core), level, counter, payload, core.mem, n.Some?);
      if n.Some? { ReturnValue(n.value); } else { ReturnError(InvalidAddress); }
      return true;
    }

    /** Provide revealed data; `false`, and no change, when none was asked for. */
    method ProvideReveal(data: seq<byte>) returns (accepted: bool)
      requires Valid()
      modifies this
      ensures Valid() && (accepted <==> old(status) == WaitingForReveal)
      ensures !accepted ==> status == old(status) && core == old(core)
      ensures accepted ==>
                var n := Least(interface.maxReveal, Least(old(core).XRead(A3), |data|));
                && status == Evaluating && Answer(interface, core.XRead(A0), n)
                && match WriteAll(old(core).mem, old(core).XRead(A2), data[..n])
                   case Some(m) => core == old(core).(mem := m).XWrite(A0, n)
                   case None => core == old(core).XWrite(A0, U64(interface.code(InvalidAddress)))
      ensures revealsAccepted == old(revealsAccepted) + (if accepted then 1 else 0)
      ensures revealsRequested == old(revealsRequested) && latest == old(latest)
    {
      if status != WaitingForReveal { return false; }
      status := Evaluating;
      revealsAccepted := revealsAccepted + 1;
      var n := Least(interface.maxReveal, Least(core.XRead(A3), |data|));
      var m := WriteAll(core.mem, core.XRead(A2), data[..n]);
      if m.Some? {
        core := core.(mem := m.value);
        ReturnValue(n);
      } else {
        ReturnError(InvalidAddress);
      }
      return true;
    }
  }
}
