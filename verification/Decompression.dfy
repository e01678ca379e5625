/** The capped, buffer-doubling decompression loop over an inflate oracle. */
module Decompression {
  import opened Bytes
  import opened Results

  const CHUNK: nat := 65536

  /** The largest object a C allocator hands out (PTRDIFF_MAX). */
  const MAX_OBJECT: nat := 0x7FFF_FFFF_FFFF_FFFF

  datatype InflateReturn = ZOk | ZStreamEnd | ZFailure

  datatype InflateStep = InflateStep(ret: InflateReturn, consumed: nat, output: bytes)

  /** What zlib promises of every `inflate` call: it stays within the input and the room it was given, and
      Z_OK means progress. The arguments are the call's number, the bytes produced before it, the unread
      input and the room. */
  ghost predicate ObeysZlib(inflate: (nat, nat, nat, nat) -> InflateStep) {
    forall k: nat, total: nat, availIn: nat, room: nat :: Obedient(inflate(k, total, availIn, room), availIn, room)
  }

  predicate Obedient(s: InflateStep, availIn: nat, room: nat) {
    s.consumed <= availIn && |s.output| <= room && (s.ret == ZOk ==> s.consumed + |s.output| > 0)
  }

  type Inflater = f: (nat, nat, nat, nat) -> InflateStep | ObeysZlib(f)
    ghost witness (k, total, availIn, room) => InflateStep(ZFailure, 0, [])

  type Allocator = a: nat -> bool | forall n: nat :: a(n) ==> n <= MAX_OBJECT
    ghost witness n => false

  /** The `k`-th call of `inflate`. */
  function Call(inflate: Inflater, k: nat, total: nat, availIn: nat, room: nat): (s: InflateStep)
    ensures Obedient(s, availIn, room)
  {
    inflate(k, total, availIn, room)
  }

  /** Whether an allocation of `n` bytes succeeds. */
  function Grants(alloc: Allocator, n: nat): (ok: bool)
    ensures ok ==> n <= MAX_OBJECT
  {
    alloc(n)
  }

  datatype GunzipResult = Inflated(output: bytes) | GunzipError(code: InstallResult)

  function Min(a: nat, b: nat): nat {
    if a < b then a else b
  }

  /** How one iteration ends: with a result, or with the state of the next one. */
  datatype Iteration = Done(result: GunzipResult) | Next(availIn: nat, out: bytes, capacity: nat)

  /** The capacity with which an iteration calls `inflate`: a full buffer is doubled, up to the cap. */
  function Enlarged(total: nat, capacity: nat, cap: nat): (r: nat)
    requires total <= capacity <= cap && capacity <= MAX_OBJECT
    ensures capacity <= r <= cap
    ensures total < cap && 0 < capacity ==> total < r
  {
    if total == capacity then Min(capacity * 2 % SIZE_MODULUS, cap) else capacity
  }

  /** The room left in the buffer, cut to an `unsigned int` as the code does. */
  function RoomFor(capacity: nat, total: nat): (room: nat)
    requires total <= capacity
    ensures room <= capacity - total
    ensures capacity - total < UINT_MODULUS ==> room == capacity - total
  {
    (capacity - total) % UINT_MODULUS
  }

  /** The judgement of one `inflate` call. */
  function Judge(s: InflateStep, availIn: nat, out: bytes, room: nat, capacity: nat): Iteration
    requires s.consumed <= availIn
  {
    if s.ret == ZFailure then Done(GunzipError(DecompressFailed))
    else if s.ret == ZOk && s.consumed == availIn && |s.output| < room then Done(GunzipError(DecompressFailed))
    else if s.ret == ZStreamEnd then Done(Inflated(out + s.output))
    else Next(availIn - s.consumed, out + s.output, capacity)
  }

  /** The `k`-th iteration, with `out` in a buffer of `capacity` bytes. */
  ghost function Iterate(inflate: Inflater, alloc: Allocator, cap: nat, k: nat, availIn: nat, out: bytes,
      capacity: nat): (r: Iteration)
    requires |out| <= capacity <= cap && Grants(alloc, capacity)
    ensures r.Next? ==> |r.out| <= r.capacity <= cap && Grants(alloc, r.capacity)
    ensures r.Next? ==> r.availIn + (cap - |r.out|) < availIn + (cap - |out|)
    ensures r.Done? && r.result.Inflated? ==> |r.result.output| <= cap
    ensures r.Done? && r.result.GunzipError? ==> r.result.code in {DecompressedTooLarge, DecompressFailed}
  {
    var capacity' := Enlarged(|out|, capacity, cap);
    if |out| == capacity && capacity >= cap then Done(GunzipError(DecompressedTooLarge))
    else if |out| == capacity && !Grants(alloc, capacity') then Done(GunzipError(DecompressFailed))
    else
      var room := RoomFor(capacity', |out|);
      Judge(Call(inflate, k, |out|, availIn, room), availIn, out, room, capacity')
  }

  /** The loop from its `k`-th iteration on. */
  ghost function Loop(inflate: Inflater, alloc: Allocator, cap: nat, k: nat, availIn: nat, out: bytes,
      capacity: nat): (r: GunzipResult)
    requires |out| <= capacity <= cap && Grants(alloc, capacity)
    ensures r.Inflated? ==> |r.output| <= cap
    ensures r.GunzipError? ==> r.code in {DecompressedTooLarge, DecompressFailed}
    decreases availIn + (cap - |out|)
  {
    match Iterate(inflate, alloc, cap, k, availIn, out, capacity)
    case Done(result) => result
    case Next(availIn', out', capacity') => Loop(inflate, alloc, cap, k + 1, availIn', out', capacity')
  }

  ghost function Gunzip(inflate: Inflater, alloc: Allocator, cap: nat, gzLength: nat): (r: GunzipResult)
    ensures r.Inflated? ==> |r.output| <= cap
    ensures r.GunzipError? ==> r.code in {InvalidArg, DecompressedTooLarge, DecompressFailed}
  {
    var capacity := Min(CHUNK, cap);
    if gzLength == 0 || cap == 0 then GunzipError(InvalidArg)
    else if !Grants(alloc, capacity) then GunzipError(DecompressFailed)
    else Loop(inflate, alloc, cap, 0, gzLength % UINT_MODULUS, [], capacity)
  }

  /** A larger buffer with the same first `total` bytes, as `realloc` gives. */
  method Reallocate(buf: array<byte>, total: nat, capacity: nat) returns (bigger: array<byte>)
    requires total <= buf.Length && total <= capacity
    ensures fresh(bigger) && bigger.Length == capacity && bigger[..total] == buf[..total]
  {
    bigger := new byte[capacity];
    Store(bigger, 0, buf[..total]);
    assert bigger[..0] + buf[..total] == buf[..total];
  }

  /** Doubles a full buffer, up to the cap, or says why it cannot. */
  method MakeRoom(alloc: Allocator, buf: array<byte>, total: nat, cap: nat) returns (code: InstallResult,
      bigger: array<byte>)
    requires total <= buf.Length <= cap && Grants(alloc, buf.Length)
    ensures bigger == buf || fresh(bigger)
    ensures code == if total == buf.Length && buf.Length >= cap then DecompressedTooLarge
                    else if total == buf.Length && !Grants(alloc, Enlarged(total, buf.Length,
                        cap)) then DecompressFailed
                    else InstallOk
    ensures total <= bigger.Length <= cap
    ensures code == InstallOk ==> bigger.Length == Enlarged(total, buf.Length, cap) && Grants(alloc, bigger.Length)
    ensures code == InstallOk ==> bigger[..total] == buf[..total]
  {
    if total < buf.Length {
      return InstallOk, buf;
    }
    if buf.Length >= cap {
      return DecompressedTooLarge, buf;
    }
    var newCapacity := buf.Length * 2 % SIZE_MODULUS;
    if newCapacity > cap {
      newCapacity := cap;
    }
    if !Grants(alloc, newCapacity) {
      return DecompressFailed, buf;
    }
    bigger := Reallocate(buf, total, newCapacity);
    return InstallOk, bigger;
  }

  /** One `inflate` call, writing behind the `total` bytes already there. */
  method InflateInto(inflate: Inflater, k: nat, availIn: nat, buf: array<byte>, total: nat) returns (step: InflateStep)
    requires total <= buf.Length
    modifies buf
    ensures step == Call(inflate, k, total, availIn, RoomFor(buf.Length, total))
    ensures total + |step.output| <= buf.Length
    ensures buf[..total + |step.output|] == old(buf[..total]) + step.output
  {
    step := Call(inflate, k, total, availIn, RoomFor(buf.Length, total));
    Store(buf, total, step.output);
  }

  /** `fota_gunzip`. The buffer never outgrows `cap`, and every iteration shrinks the unread input plus
      the output still allowed. */
  method Decompress(inflate: Inflater, alloc: Allocator, gzLength: nat, cap: nat)
    returns (code: InstallResult, buf: array<byte>, total: nat)
    ensures fresh(buf) && total <= buf.Length <= cap
    ensures code == InstallOk ==> Gunzip(inflate, alloc, cap, gzLength) == Inflated(buf[..total])
    ensures code != InstallOk ==> Gunzip(inflate, alloc, cap, gzLength) == GunzipError(code)
  {
    buf, total := new byte[0], 0;
    if gzLength == 0 || cap == 0 {
      return InvalidArg, buf, 0;
    }
    var availIn: nat := gzLength % UINT_MODULUS;
    var capacity := if CHUNK < cap then CHUNK else cap;
    if !Grants(alloc, capacity) {
      return DecompressFailed, buf, 0;
    }
    buf := new byte[capacity];
    assert buf[..0] == [];
    ghost var result := Gunzip(inflate, alloc, cap, gzLength);
    code, buf, total := InflateAll(inflate, alloc, cap, availIn, buf, result);
  }

  /** One iteration of the loop: what it leaves in the buffer, or the error with which it ends. */
  method InflateOnce(inflate: Inflater, alloc: Allocator, cap: nat, k: nat, availIn: nat, buf: array<byte>, total: nat)
    returns (code: InstallResult, bigger: array<byte>, total': nat, availIn': nat, end: bool)
    requires total <= buf.Length <= cap && Grants(alloc, buf.Length)
    modifies buf
    ensures bigger == buf || fresh(bigger)
    ensures total' <= bigger.Length <= cap
    ensures Iterate(inflate, alloc, cap, k, availIn, old(buf[..total]), buf.Length)
         == if code != InstallOk then Done(GunzipError(code))
            else if end then Done(Inflated(bigger[..total']))
            else Next(availIn', bigger[..total'], bigger.Length)
  {
    hide Enlarged, RoomFor, Call, Grants;
    total', availIn', end := total, availIn, false;
    code, bigger := MakeRoom(alloc, buf, total, cap);
    if code != InstallOk {
      return;
    }
    var room := RoomFor(bigger.Length, total);
    var step := InflateInto(inflate, k, availIn, bigger, total);
    total' := total + |step.output|;
    availIn' := availIn - step.consumed;
    if step.ret != ZOk && step.ret != ZStreamEnd {
      code := DecompressFailed;
    } else if step.ret == ZOk && availIn' == 0 && room > |step.output| {
      code := DecompressFailed;
    }
    end := step.ret == ZStreamEnd;
  }

  /** The loop of `fota_gunzip`. */
  method InflateAll(inflate: Inflater, alloc: Allocator, cap: nat, gzLength: nat, initial: array<byte>,
      ghost result: GunzipResult)
    returns (code: InstallResult, buf: array<byte>, total: nat)
    requires initial.Length <= cap && Grants(alloc, initial.Length)
    requires result == Loop(inflate, alloc, cap, 0, gzLength, [], initial.Length)
    modifies initial
    ensures buf == initial || fresh(buf)
    ensures total <= buf.Length <= cap
    ensures result == if code == InstallOk then Inflated(buf[..total]) else GunzipError(code)
  {
    hide Iterate, Grants;
    var availIn: nat, calls: nat := gzLength, 0;
    buf, total, code := initial, 0, InstallOk;
    var end := false;
    assert buf[..0] == [];
    while !end
      invariant buf == initial || fresh(buf)
      invariant total <= buf.Length <= cap && code == InstallOk
      invariant end ==> result == Inflated(buf[..total])
      invariant !end ==> Grants(alloc, buf.Length)
      invariant !end ==> result == Loop(inflate, alloc, cap, calls, availIn, buf[..total], buf.Length)
      decreases !end, availIn + (cap - total)
    {
      code, buf, total, availIn, end := InflateOnce(inflate, alloc, cap, calls, availIn, buf, total);
      if code != InstallOk {
        return;
      }
      calls := calls + 1;
    }
  }

  // ---- What the loop means for a whole stream ----

  /** The oracle's outputs are successive pieces of `stream`, and it reports the end only at its end. */
  ghost predicate Streams(inflate: Inflater, stream: bytes) {
    forall k: nat, total: nat, availIn: nat, room: nat | total <= |stream| ::
      IsPiece(Call(inflate, k, total, availIn, room), total, stream)
  }

  predicate IsPiece(s: InflateStep, total: nat, stream: bytes) {
    && total + |s.output| <= |stream|
    && s.output == stream[total..total + |s.output|]
    && (s.ret == ZStreamEnd ==> total + |s.output| == |stream|)
  }

  /** The compressed input is complete: given room, no call fails, and the input runs out before the end
      of the stream only when the room does. */
  ghost predicate Complete(inflate: Inflater, stream: bytes) {
    && Streams(inflate, stream)
    && forall k: nat, total: nat, availIn: nat, room: nat | total <= |stream| && room > 0 ::
         Untruncated(Call(inflate, k, total, availIn, room), availIn, room)
  }

  predicate Untruncated(s: InflateStep, availIn: nat, room: nat) {
    s.ret != ZFailure && (s.ret == ZOk && s.consumed == availIn ==> |s.output| == room)
  }

  lemma ExtendPrefix(out: bytes, piece: bytes, stream: bytes)
    requires out <= stream && |out| + |piece| <= |stream| && piece == stream[|out|..|out| + |piece|]
    ensures out + piece <= stream
    ensures |out| + |piece| == |stream| ==> out + piece == stream
  {
    assert out + piece == stream[..|out| + |piece|];
  }

  lemma IterationIsSound(inflate: Inflater, alloc: Allocator, cap: nat, k: nat, availIn: nat, out: bytes,
      capacity: nat, stream: bytes)
    requires |out| <= capacity <= cap && Grants(alloc, capacity)
    requires Streams(inflate, stream) && out <= stream
    ensures var r := Iterate(inflate, alloc, cap, k, availIn, out, capacity);
            && (r.Next? ==> r.out <= stream)
            && (r.Done? && r.result.Inflated? ==> r.result.output == stream && |stream| <= cap)
            && (r.Done? && r.result == GunzipError(DecompressedTooLarge) ==> |stream| >= cap)
  {
    hide Enlarged;
    var capacity' := Enlarged(|out|, capacity, cap);
    if !(|out| == capacity && (capacity >= cap || !Grants(alloc, capacity'))) {
      var room := RoomFor(capacity', |out|);
      var s := Call(inflate, k, |out|, availIn, room);
      assert IsPiece(s, |out|, stream);
      ExtendPrefix(out, s.output, stream);
    }
  }

  lemma {:induction false} LoopIsSound(inflate: Inflater, alloc: Allocator, cap: nat, k: nat, availIn: nat,
      out: bytes, capacity: nat, stream: bytes)
    requires |out| <= capacity <= cap && Grants(alloc, capacity)
    requires Streams(inflate, stream) && out <= stream
    ensures var r := Loop(inflate, alloc, cap, k, availIn, out, capacity);
            && (r.Inflated? ==> r.output == stream && |stream| <= cap)
            && (r == GunzipError(DecompressedTooLarge) ==> |stream| >= cap)
    decreases availIn + (cap - |out|)
  {
    hide Iterate, Streams;
    IterationIsSound(inflate, alloc, cap, k, availIn, out, capacity, stream);
    match Iterate(inflate, alloc, cap, k, availIn, out, capacity) {
      case Done(_) =>
      case Next(availIn', out', capacity') =>
        LoopIsSound(inflate, alloc, cap, k + 1, availIn', out', capacity', stream);
    }
  }

  ghost predicate AllocatesUpTo(alloc: Allocator, most: nat) {
    forall n: nat | n <= most :: Grants(alloc, n)
  }

  /** The largest buffer the loop ever asks for on a stream of `length` bytes. */
  function LargestRequest(cap: nat, length: nat): nat {
    Min(cap, if 2 * length < CHUNK then CHUNK else 2 * length)
  }

  /** What a complete stream yields; a stream of exactly the cap is left open. */
  ghost predicate Delivered(stream: bytes, cap: nat, r: GunzipResult) {
    && (|stream| < cap ==> r == Inflated(stream))
    && (|stream| > cap ==> r == GunzipError(DecompressedTooLarge))
  }

  lemma IterationIsComplete(inflate: Inflater, alloc: Allocator, cap: nat, k: nat, availIn: nat, out: bytes,
      capacity: nat, stream: bytes)
    requires |out| <= capacity <= LargestRequest(cap, |stream|) && cap < UINT_MODULUS && 0 < capacity
    requires AllocatesUpTo(alloc, LargestRequest(cap, |stream|)) && Grants(alloc, capacity)
    requires Complete(inflate, stream) && out <= stream
    ensures var r := Iterate(inflate, alloc, cap, k, availIn, out, capacity);
            if r.Next? then r.out <= stream && 0 < r.capacity <= LargestRequest(cap, |stream|)
            else Delivered(stream, cap, r.result)
  {
    var capacity' := Enlarged(|out|, capacity, cap);
    if |out| < cap {
      assert |out| < capacity' <= LargestRequest(cap, |stream|);
      var room := RoomFor(capacity', |out|);
      assert room == capacity' - |out|;
      hide Enlarged, LargestRequest, RoomFor;
      var s := Call(inflate, k, |out|, availIn, room);
      assert IsPiece(s, |out|, stream) && Untruncated(s, availIn, room);
      ExtendPrefix(out, s.output, stream);
    }
  }

  lemma {:induction false} LoopIsComplete(inflate: Inflater, alloc: Allocator, cap: nat, k: nat, availIn: nat,
      out: bytes, capacity: nat, stream: bytes)
    requires |out| <= capacity <= LargestRequest(cap, |stream|) && cap < UINT_MODULUS && 0 < capacity
    requires AllocatesUpTo(alloc, LargestRequest(cap, |stream|)) && Grants(alloc, capacity)
    requires Complete(inflate, stream) && out <= stream
    ensures Delivered(stream, cap, Loop(inflate, alloc, cap, k, availIn, out, capacity))
    decreases availIn + (cap - |out|)
  {
    hide Iterate, Complete, AllocatesUpTo, Delivered;
    IterationIsComplete(inflate, alloc, cap, k, availIn, out, capacity, stream);
    match Iterate(inflate, alloc, cap, k, availIn, out, capacity) {
      case Done(_) =>
      case Next(availIn', out', capacity') =>
        LoopIsComplete(inflate, alloc, cap, k + 1, availIn', out', capacity', stream);
    }
  }

  /** Decompression refines whole-stream inflation: success returns exactly the stream, and "too large" is
      said only of a stream that reaches the cap. When the allocations the stream needs succeed, a complete
      stream below the cap is accepted and one above it is reported as too large. */
  lemma GunzipRefinesInflation(inflate: Inflater, alloc: Allocator, cap: nat, gzLength: nat, stream: bytes)
    requires Streams(inflate, stream)
    ensures var r := Gunzip(inflate, alloc, cap, gzLength);
            && (r.Inflated? ==> r.output == stream && |stream| <= cap)
            && (r == GunzipError(DecompressedTooLarge) ==> |stream| >= cap)
            && (Complete(inflate, stream) && AllocatesUpTo(alloc, LargestRequest(cap, |stream|))
                  && 0 < cap < UINT_MODULUS && gzLength > 0
                ==> Delivered(stream, cap, r))
  {
    hide Loop, Complete;
    var capacity := Min(CHUNK, cap);
    if gzLength > 0 && cap > 0 && Grants(alloc, capacity) {
      LoopIsSound(inflate, alloc, cap, 0, gzLength % UINT_MODULUS, [], capacity, stream);
      if Complete(inflate, stream) && AllocatesUpTo(alloc, LargestRequest(cap, |stream|)) && cap < UINT_MODULUS {
        LoopIsComplete(inflate, alloc, cap, 0, gzLength % UINT_MODULUS, [], capacity, stream);
      }
    }
  }

  /** An inflater that produces as much as it can and reports the end as early (`eager`) or as late as
      zlib allows. */
  function Delivering(stream: bytes, eager: bool): (nat, nat, nat, nat) -> InflateStep {
    (k: nat, total: nat, availIn: nat, room: nat) =>
      if total > |stream| then InflateStep(ZFailure, 0, [])
      else if |stream| - total < room || |stream| == total || (eager && |stream| - total == room) then
        InflateStep(ZStreamEnd, 0, stream[total..])
      else if room == 0 then InflateStep(ZFailure, 0, [])
      else InflateStep(ZOk, 0, stream[total..total + room])
  }

  lemma DeliveringIsComplete(stream: bytes, eager: bool)
    ensures ObeysZlib(Delivering(stream, eager)) && Complete(Delivering(stream, eager), stream)
  {
  }

  lemma DeliveredPiece(stream: bytes, eager: bool, k: nat, total: nat, availIn: nat, room: nat)
    requires 0 < room <= |stream| - total
    ensures var ret := if eager && total + room == |stream| then ZStreamEnd else ZOk;
            Delivering(stream, eager)(k, total, availIn, room) == InflateStep(ret, 0, stream[total..total + room])
  {
  }

  /** With a cap of exactly the stream's length, the eager inflater ends inside the buffer; the other fills
      it and is asked for more. */
  lemma {:induction false} FillsTheCap(alloc: Allocator, stream: bytes, eager: bool, k: nat, availIn: nat,
      out: bytes, capacity: nat)
    requires |stream| < UINT_MODULUS && AllocatesUpTo(alloc, |stream|) && ObeysZlib(Delivering(stream, eager))
    requires |out| <= capacity <= |stream| && 0 < capacity && Grants(alloc, capacity) && out <= stream
    requires eager ==> |out| < |stream|
    ensures Loop(Delivering(stream, eager), alloc, |stream|, k, availIn, out, capacity)
         == if eager then Inflated(stream) else GunzipError(DecompressedTooLarge)
    decreases |stream| - |out|
  {
    var cap := |stream|;
    if |out| < cap {
      var capacity' := Enlarged(|out|, capacity, cap);
      var room := RoomFor(capacity', |out|);
      assert 0 < room == capacity' - |out|;
      DeliveredPiece(stream, eager, k, |out|, availIn, room);
      hide Enlarged, RoomFor, ObeysZlib, Delivering;
      var out' := out + stream[|out|..|out| + room];
      assert out' == stream[..capacity'];
      if eager && capacity' == cap {
        assert out' == stream;
        assert Iterate(Delivering(stream, eager), alloc, cap, k, availIn, out, capacity) == Done(Inflated(stream));
      } else {
        assert Iterate(Delivering(stream, eager), alloc, cap, k, availIn, out, capacity)
            == Next(availIn, out', capacity');
        FillsTheCap(alloc, stream, eager, k + 1, availIn, out', capacity');
      }
    }
  }

  /** Both inflaters meet the contract, so it asks nothing impossible; and with a cap of exactly the
      stream's length they part: one stream is accepted, the other reported as too large. */
  lemma ExactCapIsUndetermined(alloc: Allocator, stream: bytes, gzLength: nat)
    requires 0 < |stream| < UINT_MODULUS && AllocatesUpTo(alloc, |stream|) && gzLength > 0
    ensures forall eager :: ObeysZlib(Delivering(stream, eager)) && Complete(Delivering(stream, eager), stream)
    ensures Gunzip(Delivering(stream, true), alloc, |stream|, gzLength) == Inflated(stream)
    ensures Gunzip(Delivering(stream, false), alloc, |stream|, gzLength) == GunzipError(DecompressedTooLarge)
  {
    hide Complete, Loop;
    var capacity := Min(CHUNK, |stream|);
    forall eager
      ensures ObeysZlib(Delivering(stream, eager)) && Complete(Delivering(stream, eager), stream)
      ensures Loop(Delivering(stream, eager), alloc, |stream|, 0, gzLength % UINT_MODULUS, [], capacity)
           == if eager then Inflated(stream) else GunzipError(DecompressedTooLarge)
    {
      DeliveringIsComplete(stream, eager);
      FillsTheCap(alloc, stream, eager, 0, gzLength % UINT_MODULUS, [], capacity);
    }
  }

  // ---- The loop, call by call ----

  /** How the decompression begins, and when it refuses at once. */
  lemma GunzipStarts(inflate: Inflater, alloc: Allocator, cap: nat, gzLength: nat)
    ensures var first := if cap < 65536 then cap else 65536;
            Gunzip(inflate, alloc, cap, gzLength) ==
            if gzLength == 0 || cap == 0 then GunzipError(InvalidArg)
            else if !alloc(first) then GunzipError(DecompressFailed)
            else Loop(inflate, alloc, cap, 0, gzLength % 0x1_0000_0000, [], first)
  {
    hide Loop;
  }

  /** How it goes on, by what the allocator and the next `inflate` call answer: a full buffer at the cap is
      too large; a refused doubling, a failed call, and a call that takes all input, leaves room and does not
      end the stream, fail; the end of the stream succeeds; anything else goes on. */
  lemma LoopGoesOn(inflate: Inflater, alloc: Allocator, cap: nat, k: nat, availIn: nat, out: bytes, capacity: nat)
    requires |out| <= capacity <= cap && Grants(alloc, capacity)
    ensures var full := |out| == capacity;
            var doubled := if 2 * capacity < cap then 2 * capacity else cap;
            var capacity' := if full then doubled else capacity;
            var here := Loop(inflate, alloc, cap, k, availIn, out, capacity);
            if full && capacity == cap then here == GunzipError(DecompressedTooLarge)
            else if full && !alloc(doubled) then here == GunzipError(DecompressFailed)
            else
              var room := (capacity' - |out|) % 0x1_0000_0000;
              var s := inflate(k, |out|, availIn, room);
              if s.ret == ZFailure then here == GunzipError(DecompressFailed)
              else if s.ret == ZStreamEnd then here == Inflated(out + s.output)
              else if s.consumed == availIn && |s.output| < room then here == GunzipError(DecompressFailed)
              else
                && s.consumed <= availIn && |out + s.output| <= capacity' <= cap && Grants(alloc, capacity')
                && here == Loop(inflate, alloc, cap, k + 1, availIn - s.consumed, out + s.output, capacity')
  {
    var capacity' := Enlarged(|out|, capacity, cap);
    assert capacity' == if |out| == capacity then if 2 * capacity < cap then 2 * capacity else cap else capacity;
    if !(|out| == capacity && (capacity == cap || !alloc(capacity'))) {
      var room := RoomFor(capacity', |out|);
      assert room == (capacity' - |out|) % 0x1_0000_0000;
      hide Enlarged, RoomFor, ObeysZlib;
      assert Obedient(Call(inflate, k, |out|, availIn, room), availIn, room);
      assert Iterate(inflate, alloc, cap, k, availIn, out, capacity)
          == Judge(Call(inflate, k, |out|, availIn, room), availIn, out, room, capacity');
      hide Iterate;
    }
  }
}
