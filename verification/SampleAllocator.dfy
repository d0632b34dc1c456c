/**
 The sample allocator of the DirectShow filter: samples are carved out of a buffer that the application
 owns. Base class calls are reduced to their result code and the properties they grant.
 */
module SampleAllocator {
  import opened Arithmetic
  import opened Bytes

  datatype HResult = SOk | SFalse | NoError | OutOfMemory | BadAlign | EFail
    | EInvalidArg | EPointer | BaseFailure(code: int)

  datatype Properties = Properties(cBuffers: nat, cbBuffer: nat, cbAlign: nat, cbPrefix: nat)

  /** A media sample: the address GetPointer() returns and the size behind it. */
  datatype Sample = Sample(pointer: nat, size: nat)

  /** Size plus prefix, rounded up to the alignment when there is one. */
  function AlignedSize(size: nat, prefix: nat, alignment: nat): nat
  {
    var total := size + prefix;
    if alignment > 1 && total % alignment != 0 then total + (alignment - total % alignment) else total
  }

  /** With an alignment above 1, the aligned size is the least multiple of it that holds size + prefix. */
  lemma AlignedSizeLeast(size: nat, prefix: nat, alignment: nat, m: nat)
    requires alignment > 1
    ensures var a := AlignedSize(size, prefix, alignment);
            && a >= size + prefix && a % alignment == 0
            && (m * alignment >= size + prefix ==> m * alignment >= a)
  {
    var total, q := size + prefix, (size + prefix) / alignment;
    assert total == q * alignment + total % alignment;
    if total % alignment != 0 {
      assert AlignedSize(size, prefix, alignment) == (q + 1) * alignment;
      MultipleMod(q + 1, alignment);
      MulGap(m - q, alignment);
      assert (m - q) * alignment == m * alignment - q * alignment;
    }
  }

  /** Without an alignment nothing is added. */
  lemma UnalignedSize(size: nat, prefix: nat, alignment: nat)
    ensures alignment <= 1 ==> AlignedSize(size, prefix, alignment) == size + prefix
    ensures alignment > 1 ==> AlignedSize(size, prefix, alignment) < size + prefix + alignment
  {
  }

  lemma MultipleMod(k: nat, alignment: nat)
    requires alignment > 0
    ensures k * alignment % alignment == 0
  {
    var x := k * alignment;
    assert x == x / alignment * alignment + x % alignment;
    MulGap(k - x / alignment, alignment);
    assert (k - x / alignment) * alignment == x % alignment;
  }

  /** The i-th sample of a buffer cut at the given stride. */
  function Slot(buffer: nat, stride: nat, prefix: nat, size: nat, i: nat): Sample
  {
    Sample(buffer + i * stride + prefix, size)
  }

  ghost predicate Carved(free: seq<Sample>, buffer: nat, stride: nat, prefix: nat, size: nat)
  {
    forall i :: 0 <= i < |free| ==> free[i] == Slot(buffer, stride, prefix, size, i)
  }

  /** Samples, prefixes included, never overlap. */
  lemma SamplesDisjoint(free: seq<Sample>, buffer: nat, prefix: nat, size: nat, alignment: nat, i: nat, j: nat)
    requires Carved(free, buffer, AlignedSize(size, prefix, alignment), prefix, size) && i < j < |free|
    ensures free[i].pointer + free[i].size <= free[j].pointer - prefix
  {
    var stride := AlignedSize(size, prefix, alignment);
    MulMonotone(i + 1, j, stride);
    assert (i + 1) * stride == i * stride + stride;
  }

  /** Sample `i` follows its own prefix, which stands on the alignment counted from the start of the buffer; the
      first prefix is at the start. */
  ghost predicate Placed(free: seq<Sample>, buffer: nat, prefix: nat, alignment: nat)
  {
    && (forall i :: 0 <= i < |free| ==> free[i].pointer >= buffer + prefix)
    && (alignment > 1 ==> forall i :: 0 <= i < |free| ==> (free[i].pointer - prefix - buffer) % alignment == 0)
    && (free != [] ==> free[0].pointer == buffer + prefix)
  }

  lemma MultipleOf(i: nat, stride: nat, alignment: nat)
    requires alignment > 0 && stride % alignment == 0
    ensures i * stride % alignment == 0
  {
    var k := stride / alignment;
    assert stride == k * alignment;
    assert i * stride == i * k * alignment;
    MultipleMod(i * k, alignment);
  }

  lemma SamplesPlaced(free: seq<Sample>, buffer: nat, prefix: nat, size: nat, alignment: nat)
    requires Carved(free, buffer, AlignedSize(size, prefix, alignment), prefix, size)
    ensures Placed(free, buffer, prefix, alignment)
  {
    var stride := AlignedSize(size, prefix, alignment);
    if alignment > 1 {
      AlignedSizeLeast(size, prefix, alignment, 0);
      forall i | 0 <= i < |free| ensures (free[i].pointer - prefix - buffer) % alignment == 0 {
        assert free[i] == Slot(buffer, stride, prefix, size, i);
        MultipleOf(i, stride, alignment);
      }
    }
    forall i | 0 <= i < |free| ensures free[i].pointer >= buffer + prefix {
      assert free[i] == Slot(buffer, stride, prefix, size, i);
      MulMonotone(0, i, stride);
    }
  }

  /* ---- the application's buffer ---- */

  function Stride(props: Properties): nat
  {
    AlignedSize(props.cbBuffer, props.cbPrefix, props.cbAlign)
  }

  /** The bytes an application must provide for the properties it announces. */
  function Capacity(props: Properties): nat
  {
    props.cBuffers * Stride(props)
  }

  /** Where the last of `n` samples ends, from the start of the buffer. */
  function Extent(n: nat, cut: Properties): nat
  {
    if n == 0 then 0 else (n - 1) * Stride(cut) + cut.cbPrefix + cut.cbBuffer
  }

  ghost predicate AllInside(free: seq<Sample>, origin: nat, capacity: nat)
  {
    forall i :: 0 <= i < |free| ==> free[i].pointer + free[i].size <= origin + capacity
  }

  /** Samples cut with given properties lie inside a buffer if and only if the last one does. */
  lemma InsideIff(free: seq<Sample>, origin: nat, cut: Properties, capacity: nat)
    requires Carved(free, origin, Stride(cut), cut.cbPrefix, cut.cbBuffer)
    ensures AllInside(free, origin, capacity) <==> Extent(|free|, cut) <= capacity
  {
    if free != [] {
      var last := |free| - 1;
      assert free[last] == Slot(origin, Stride(cut), cut.cbPrefix, cut.cbBuffer, last);
      forall i | 0 <= i < |free|
        ensures free[i].pointer <= free[last].pointer
      {
        MulMonotone(i, last, Stride(cut));
      }
    }
  }

  /** The announced properties fit the announced capacity. */
  lemma AnnouncedFits(n: nat, props: Properties)
    requires n <= props.cBuffers
    ensures Extent(n, props) <= Capacity(props)
  {
    if n > 0 {
      MulMonotone(n, props.cBuffers, Stride(props));
      assert (n - 1) * Stride(props) + Stride(props) == n * Stride(props);
    }
  }

  /** A request the application's buffer can serve. */
  predicate Compatible(request: Properties, required: Properties)
  {
    && request.cbAlign == required.cbAlign && request.cbPrefix == required.cbPrefix
    && request.cbBuffer <= required.cbBuffer && request.cBuffers <= required.cBuffers
  }

  /* ---- runs ---- */

  /** A call on the pin or its allocator, with what the base class and the heap answer. */
  datatype Op =
    | DoSetDeliveryBuffer(props: Properties, buffer: Option<nat>, enough: bool)
    | DoSetProperties(request: Properties, setBase: HResult, granted: Properties)
    | DoAlloc(allocBase: HResult, memory: nat)
    | DoReallyFree

  predicate Legal(o: Op)
  {
    match o
    case DoSetProperties(_, base, _) => base == SOk || base.BaseFailure?
    case DoAlloc(base, _) => base == SOk || base == SFalse || base.BaseFailure?
    case _ => true
  }

  const NOTHING := Properties(0, 0, 0, 0)

  /** What a run amounts to: the announced properties, whether there is an allocator, the properties in force
      in it, and how many samples were cut with which properties. */
  datatype Ledger = Ledger(props: Properties, alive: bool, current: Properties, count: nat, cut: Properties)

  function Entered(l: Ledger, o: Op): Ledger
  {
    match o
    case DoSetDeliveryBuffer(props, buffer, enough) =>
      if props.cBuffers != 1 || buffer.None? then l else Ledger(props, enough, NOTHING, 0, NOTHING)
    case DoSetProperties(request, base, granted) =>
      if !l.alive || base != SOk then l else l.(current := if Compatible(request, l.props) then l.props else granted)
    case DoAlloc(base, memory) =>
      if !l.alive || base != SOk then l else l.(count := Min(l.current.cBuffers, memory), cut := l.current)
    case DoReallyFree =>
      l.(count := 0)
  }

  function Balance(l: Ledger, ops: seq<Op>): Ledger
    decreases |ops|
  {
    if ops == [] then l else Balance(Entered(l, ops[0]), ops[1..])
  }

  lemma {:induction false} BalanceSnoc(l: Ledger, ops: seq<Op>, o: Op)
    ensures Balance(l, ops + [o]) == Entered(Balance(l, ops), o)
    decreases |ops|
  {
    if ops == [] {
      assert ops + [o] == [o] && [o][1..] == [];
    } else {
      assert (ops + [o])[1..] == ops[1..] + [o];
      BalanceSnoc(Entered(l, ops[0]), ops[1..], o);
    }
  }

  /** The samples of a ledger end inside the buffer its properties announce. */
  predicate Within(l: Ledger)
  {
    Extent(l.count, l.cut) <= Capacity(l.props)
  }

  /** No call asks for properties that are refused after the base class has granted them. */
  predicate NoneRefused(ops: seq<Op>, props: Properties)
    decreases |ops|
  {
    ops == [] || (
      && (ops[0].DoSetProperties? && ops[0].setBase == SOk ==> Compatible(ops[0].request, props))
      && NoneRefused(ops[1..], Announced(ops[0], props)))
  }

  /** The announced properties after a call. */
  function Announced(o: Op, props: Properties): Properties
  {
    if o.DoSetDeliveryBuffer? && o.props.cBuffers == 1 && o.buffer.Some? then o.props else props
  }

  /** What holds while nothing was refused. */
  predicate Tame(l: Ledger)
  {
    && (l.current == l.props || l.current == NOTHING)
    && (l.count == 0 || (l.cut == l.props && l.count <= l.props.cBuffers))
  }

  /** Without a refused request the samples end inside the buffer, whatever else happens. */
  lemma {:induction false} NoneRefusedWithin(l: Ledger, ops: seq<Op>)
    requires Tame(l) && NoneRefused(ops, l.props)
    ensures Within(Balance(l, ops))
    decreases |ops|
  {
    if ops == [] {
      if l.count > 0 {
        AnnouncedFits(l.count, l.props);
      }
    } else {
      NoneRefusedWithin(Entered(l, ops[0]), ops[1..]);
    }
  }

  class Allocator {
    const pin: InPin
    var lAllocated: nat
    var lFree: seq<Sample>
    var pBuffer: Option<nat>
    var lCount: nat
    var lSize: nat
    var lAlignment: nat
    var lPrefix: nat
    var bChanged: bool
    /** The buffer and the properties the samples were cut with. */
    ghost var origin: nat
    ghost var cut: Properties

    /** With no sample outstanding, the counter is the length of the free list, and the samples are the
        first slots of one buffer. */
    ghost predicate Valid()
      reads this
    {
      && lAllocated == |lFree| && (pBuffer.None? ==> lFree == [])
      && Carved(lFree, origin, Stride(cut), cut.cbPrefix, cut.cbBuffer)
    }

    constructor (pin: InPin)
      ensures Valid() && this.pin == pin && pBuffer == None && lFree == [] && Current() == NOTHING
    {
      this.pin := pin;
      origin, cut := 0, NOTHING;
      lAllocated, lFree, pBuffer, bChanged := 0, [], None, false;
      lCount, lSize, lAlignment, lPrefix := 0, 0, 0, 0;
    }

    /** Deletes every sample; the buffer stays with the application. */
    method ReallyFree()
      modifies this`lAllocated, this`lFree
      ensures lFree == [] && lAllocated == 0
    {
      while lFree != []
        decreases |lFree|
      {
        lFree := lFree[1..];
      }
      lAllocated := 0;
    }

    /** `base` is the base class result, `memory` how many samples can be created before memory runs out. */
    method Alloc(base: HResult, memory: nat) returns (hr: HResult)
      requires Valid() && (base == SOk || base == SFalse || base.BaseFailure?)
      modifies this`lAllocated, this`lFree, this`pBuffer, this`bChanged, this`origin, this`cut
      ensures Valid()
      ensures base.BaseFailure? ==> hr == base
      ensures base == SFalse ==> hr == NoError
      ensures base != SOk ==> lFree == old(lFree) && pBuffer == old(pBuffer) && bChanged == old(bChanged)
      ensures base != SOk ==> origin == old(origin) && cut == old(cut)
      ensures base == SOk ==> lAllocated == if pin.pBuffer.Some? then Min(lCount, memory) else 0
      ensures base == SOk ==> pBuffer == pin.pBuffer
      ensures base == SOk ==> (hr == NoError <==> pin.pBuffer.Some? && lCount <= memory)
      ensures base == SOk && hr == NoError ==> !bChanged
      ensures base == SOk && hr != NoError ==> hr == OutOfMemory
      ensures base == SOk && pBuffer.Some? ==> origin == pBuffer.value && cut == Current()
    {
      if base.BaseFailure? {
        return base;
      }
      if base == SFalse {
        return NoError;
      }
      if pBuffer != None {
        ReallyFree();
      }
      var lAlignedSize := lSize + lPrefix;
      if lAlignment > 1 {
        var lRemainder := lAlignedSize % lAlignment;
        if lRemainder != 0 {
          lAlignedSize := lAlignedSize + (lAlignment - lRemainder);
        }
      }
      pBuffer := pin.pBuffer;
      if pBuffer == None {
        return OutOfMemory;
      }
      var enough := CarveSamples(pBuffer.value, lAlignedSize, memory);
      origin, cut := pBuffer.value, Current();
      if !enough {
        return OutOfMemory;
      }
      bChanged := false;
      return NoError;
    }

    /** The loop that creates the samples; false when memory runs out on the way. */
    method CarveSamples(buffer: nat, stride: nat, memory: nat) returns (enough: bool)
      requires lFree == [] && lAllocated == 0
      modifies this`lAllocated, this`lFree
      ensures lAllocated == |lFree| == Min(lCount, memory) && enough == (lCount <= memory)
      ensures Carved(lFree, buffer, stride, lPrefix, lSize)
    {
      var pNext := buffer;
      while lAllocated < lCount
        invariant lAllocated == |lFree| <= lCount && lAllocated <= memory
        invariant pNext == buffer + lAllocated * stride
        invariant Carved(lFree, buffer, stride, lPrefix, lSize)
        decreases lCount - lAllocated
      {
        if lAllocated == memory {
          return false;
        }
        lFree := lFree + [Sample(pNext + lPrefix, lSize)];
        assert (lAllocated + 1) * stride == lAllocated * stride + stride;
        lAllocated := lAllocated + 1;
        pNext := pNext + stride;
      }
      return true;
    }

    /** The base class first grants what it likes; a compatible request is then replaced by what the
        application required, an incompatible one is refused. */
    method SetProperties(request: Properties, base: HResult, granted: Properties)
      returns (hr: HResult, actual: Properties)
      requires Valid() && (base == SOk || base.BaseFailure?)
      modifies this`lCount, this`lSize, this`lAlignment, this`lPrefix, this`bChanged
      ensures Valid()
      ensures base.BaseFailure? ==> hr == base && Current() == old(Current())
      ensures base == SOk ==>
                hr == if Compatible(request, pin.allocprops) then SOk
                      else if request.cbAlign != pin.allocprops.cbAlign then BadAlign else EFail
      ensures hr == SOk ==> actual == pin.allocprops && Current() == pin.allocprops
      ensures base == SOk && hr != SOk ==> actual == granted && Current() == granted
    {
      actual := granted;
      if base.BaseFailure? {
        return base, actual;
      }
      lCount, lSize, lAlignment, lPrefix := granted.cBuffers, granted.cbBuffer, granted.cbAlign, granted.cbPrefix;
      bChanged := true;
      var required := pin.allocprops;
      if request.cbAlign != required.cbAlign {
        return BadAlign, actual;
      }
      if request.cbPrefix != required.cbPrefix {
        return EFail, actual;
      }
      if request.cbBuffer > required.cbBuffer {
        return EFail, actual;
      }
      if request.cBuffers > required.cBuffers {
        return EFail, actual;
      }
      actual := required;
      lCount, lSize, lAlignment, lPrefix := required.cBuffers, required.cbBuffer, required.cbAlign, required.cbPrefix;
      return SOk, actual;
    }

    ghost function Current(): Properties
      reads this
    {
      Properties(lCount, lSize, lAlignment, lPrefix)
    }
  }

  /** The input pin: the application's properties and buffer, and the allocator made for them. */
  class InPin {
    var allocprops: Properties
    var pBuffer: Option<nat>
    var privateAllocator: Allocator?

    ghost predicate Valid()
      reads this, privateAllocator
    {
      privateAllocator != null ==>
        privateAllocator.Valid() && privateAllocator.pin == this && pBuffer.Some? && allocprops.cBuffers == 1
    }

    constructor ()
      ensures Valid() && privateAllocator == null
    {
      allocprops, pBuffer, privateAllocator := NOTHING, None, null;
    }

    /** Exactly one buffer, and not a null one; any earlier allocator is replaced. */
    method SetDeliveryBuffer(props: Properties, buffer: Option<nat>, enough: bool) returns (hr: HResult)
      requires Valid()
      modifies this
      ensures Valid()
      ensures hr == if props.cBuffers != 1 then EInvalidArg else if buffer.None? then EPointer
                    else if enough then SOk else OutOfMemory
      ensures hr == EInvalidArg || hr == EPointer ==>
                allocprops == old(allocprops) && pBuffer == old(pBuffer) && privateAllocator == old(privateAllocator)
      ensures hr == SOk || hr == OutOfMemory ==> allocprops == props && pBuffer == buffer
      ensures hr == OutOfMemory ==> privateAllocator == null
      ensures hr == SOk ==> privateAllocator != null && fresh(privateAllocator) && privateAllocator.lFree == []
      ensures hr == SOk ==> privateAllocator.Current() == NOTHING
    {
      if props.cBuffers != 1 {
        return EInvalidArg;
      }
      if buffer == None {
        return EPointer;
      }
      allocprops := props;
      pBuffer := buffer;
      privateAllocator := null;
      if !enough {
        return OutOfMemory;
      }
      privateAllocator := new Allocator(this);
      return SOk;
    }

    /** The ledger says what the pin and its allocator hold. */
    ghost predicate Matches(l: Ledger)
      reads this, privateAllocator
    {
      && allocprops == l.props && (privateAllocator != null <==> l.alive) && (!l.alive ==> l.count == 0)
      && (privateAllocator != null ==>
           && privateAllocator.Current() == l.current && |privateAllocator.lFree| == l.count
           && (l.count > 0 ==> privateAllocator.cut == l.cut && pBuffer == Some(privateAllocator.origin)))
    }

    method Perform(o: Op, ghost l: Ledger)
      requires Valid() && Legal(o) && Matches(l)
      modifies this, privateAllocator
      ensures Valid() && Matches(Entered(l, o))
      ensures privateAllocator == null || privateAllocator == old(privateAllocator) || fresh(privateAllocator)
    {
      match o
      case DoSetDeliveryBuffer(props, buffer, enough) =>
        var _ := SetDeliveryBuffer(props, buffer, enough);
      case DoSetProperties(request, base, granted) =>
        if privateAllocator != null {
          var _, _ := privateAllocator.SetProperties(request, base, granted);
        }
      case DoAlloc(base, memory) =>
        if privateAllocator != null {
          var _ := privateAllocator.Alloc(base, memory);
        }
      case DoReallyFree =>
        if privateAllocator != null {
          privateAllocator.ReallyFree();
        }
    }

    /** What every run establishes about the samples. */
    ghost predicate Disjoint()
      reads this, privateAllocator
    {
      var a := privateAllocator;
      a != null ==>
        && a.lAllocated == |a.lFree| && Placed(a.lFree, a.origin, a.cut.cbPrefix, a.cut.cbAlign)
        && forall i, j :: 0 <= i < j < |a.lFree| ==>
             a.lFree[i].pointer + a.lFree[i].size <= a.lFree[j].pointer - a.cut.cbPrefix
    }

    ghost predicate Inside()
      reads this, privateAllocator
    {
      privateAllocator != null && privateAllocator.lFree != [] ==>
        pBuffer.Some? && AllInside(privateAllocator.lFree, pBuffer.value, Capacity(allocprops))
    }

    ghost method Conclude(l: Ledger)
      requires Valid() && Matches(l)
      ensures Disjoint() && (Inside() <==> Within(l))
    {
      var a := privateAllocator;
      if a != null {
        forall i, j | 0 <= i < j < |a.lFree|
          ensures a.lFree[i].pointer + a.lFree[i].size <= a.lFree[j].pointer - a.cut.cbPrefix
        {
          SamplesDisjoint(a.lFree, a.origin, a.cut.cbPrefix, a.cut.cbBuffer, a.cut.cbAlign, i, j);
        }
        SamplesPlaced(a.lFree, a.origin, a.cut.cbPrefix, a.cut.cbBuffer, a.cut.cbAlign);
        if a.lFree != [] {
          InsideIff(a.lFree, a.origin, a.cut, Capacity(allocprops));
        }
      }
    }

    /** Any run of calls from a new pin, with any base class results: the counter is the length of the free
        list and no two samples overlap, prefixes included. Every sample lies inside the application's buffer
        if and only if the calls balance to samples that do; that is so if no request is refused. */
    method Run(ops: seq<Op>)
      requires Valid() && privateAllocator == null && forall o :: o in ops ==> Legal(o)
      modifies this
      ensures Valid() && Disjoint()
      ensures Inside() <==> Within(Balance(Ledger(old(allocprops), false, NOTHING, 0, NOTHING), ops))
      ensures NoneRefused(ops, old(allocprops)) ==> Inside()
    {
      ghost var start := Ledger(allocprops, false, NOTHING, 0, NOTHING);
      for k := 0 to |ops|
        invariant Valid() && (privateAllocator == null || fresh(privateAllocator))
        invariant Matches(Balance(start, ops[..k]))
      {
        assert ops[k] in ops && ops[..k + 1] == ops[..k] + [ops[k]];
        BalanceSnoc(start, ops[..k], ops[k]);
        Perform(ops[k], Balance(start, ops[..k]));
      }
      assert ops[..|ops|] == ops;
      Conclude(Balance(start, ops));
      if NoneRefused(ops, start.props) {
        NoneRefusedWithin(start, ops);
      }
    }
  }

  /** A run that leaves the buffer: four samples are asked for where the application announced one. The
      request is refused, but what the base class granted stays, and the next allocation obeys it. */
  method RefusedRun(buffer: nat) returns (pin: InPin)
    ensures fresh(pin) && pin.Valid() && pin.pBuffer == Some(buffer) && !pin.Inside()
  {
    pin := new InPin();
    var one, four := Properties(1, 100, 1, 0), Properties(4, 100, 1, 0);
    var hr := pin.SetDeliveryBuffer(one, Some(buffer), true);
    var a := pin.privateAllocator;
    var refused, _ := a.SetProperties(four, SOk, four);
    assert refused == EFail;
    hr := a.Alloc(SOk, 4);
    assert a.lFree[3] == Slot(buffer, 100, 0, 100, 3);
  }

  /** The condition is on the whole run: the same refusal is harmless when an accepted request follows it
      before the allocation. */
  lemma RefusalRepaired(props: Properties, granted: Properties, buffer: nat, memory: nat)
    requires props.cBuffers == 1
    ensures var offered := DoSetDeliveryBuffer(props, Some(buffer), true);
            var refused := DoSetProperties(props.(cBuffers := 4), SOk, granted);
            var accepted := DoSetProperties(props, SOk, granted);
            var ops := [offered, refused, accepted, DoAlloc(SOk, memory)];
            !NoneRefused(ops, NOTHING) && Within(Balance(Ledger(NOTHING, false, NOTHING, 0, NOTHING), ops))
  {
    var offered := DoSetDeliveryBuffer(props, Some(buffer), true);
    var refused := DoSetProperties(props.(cBuffers := 4), SOk, granted);
    var accepted := DoSetProperties(props, SOk, granted);
    var ops := [offered, refused, accepted, DoAlloc(SOk, memory)];
    assert ops[1..] == [refused, accepted, DoAlloc(SOk, memory)];
    var l := Ledger(NOTHING, false, NOTHING, 0, NOTHING);
    assert Balance(l, ops) == Ledger(props, true, props, Min(1, memory), props) by {
      assert ops[1..][1..] == [accepted, DoAlloc(SOk, memory)] && ops[1..][1..][1..] == [DoAlloc(SOk, memory)];
      assert ops[1..][1..][1..][1..] == [];
      assert Balance(Ledger(props, true, props, 0, NOTHING), ops[1..][1..][1..])
          == Entered(Ledger(props, true, props, 0, NOTHING), DoAlloc(SOk, memory));
      assert Balance(Ledger(props, true, granted, 0, NOTHING), ops[1..][1..])
          == Balance(Ledger(props, true, props, 0, NOTHING), ops[1..][1..][1..]);
    }
    AnnouncedFits(Min(1, memory), props);
  }
}
