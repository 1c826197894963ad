/**
  The address cache, section 5.3 of RFC 3284: COPY addresses are written
  absolutely (SELF), relative to the current position (HERE), relative to a
  recent address (NEAR), or as one byte naming a slot of recent addresses (SAME).
  */
module Addressing {
  import opened Base
  import opened Arithmetic
  import Varint

  const VCD_SELF := 0
  const VCD_HERE := 1

  /** The state both sides of the codec keep in step. */
  datatype Cache = Cache(near: seq<nat>, same: seq<nat>, next: nat)

  /** The first SAME mode. */
  function SameStart(c: Cache): nat {
    2 + |c.near|
  }

  function ModeCount(c: Cache): nat {
    2 + |c.near| + |c.same| / 256
  }

  /** `next` names a NEAR slot, the SAME slots come in groups of 256, and a mode is one byte. */
  predicate Shaped(c: Cache) {
    && (c.near != [] ==> c.next < |c.near|)
    && |c.same| % 256 == 0
    && ModeCount(c) <= 256
  }

  /** Besides the shape, every address kept in a SAME slot belongs to that slot. */
  ghost predicate WellFormed(c: Cache) {
    && Shaped(c)
    && (forall i :: 0 <= i < |c.same| && c.same[i] != 0 ==> c.same[i] % |c.same| == i)
  }

  function InitCache(near: nat, same: nat): Cache {
    Cache(seq(near, _ => 0), seq(same * 256, _ => 0), 0)
  }

  function Remember(c: Cache, addr: nat): (r: Cache)
    requires Shaped(c)
    ensures Shaped(r) && |r.near| == |c.near| && |r.same| == |c.same|
  {
    Cache(
      if c.near == [] then [] else c.near[c.next := addr],
      if c.same == [] then [] else c.same[addr % |c.same| := addr],
      if c.near == [] then c.next else (c.next + 1) % |c.near|)
  }

  /** The address a mode and a varint stand for. */
  function Resolve(c: Cache, mode: nat, raw: nat, here: nat): Option<nat>
    requires mode < SameStart(c)
  {
    if mode == VCD_SELF then Some(raw)
    else if mode == VCD_HERE then if raw <= here then Some(here - raw) else None
    else if c.near[mode - 2] + raw < U64_BOUND then Some(c.near[mode - 2] + raw) else None
  }

  datatype Decoded = Decoded(addr: nat, consumed: nat, cache: Cache)

  /** Reads one address in the given mode from the front of `data`. */
  function Decode(c: Cache, mode: nat, data: Bytes, here: nat): (r: Option<Decoded>)
    requires Shaped(c) && mode < ModeCount(c)
    ensures r.Some? ==> r.value.addr < here && 0 < r.value.consumed <= |data|
    ensures r.Some? ==> r.value.cache == Remember(c, r.value.addr)
  {
    if mode < SameStart(c) then
      match Varint.Read(data, U64_BOUND)
      case Failed(_) => None
      case Got(raw, consumed) =>
        match Resolve(c, mode, raw, here)
        case Some(addr) => if addr < here then Some(Decoded(addr, consumed, Remember(c, addr))) else None
        case None => None
    else if data == [] then None
    else
      var addr := c.same[(mode - SameStart(c)) * 256 + data[0]];
      if addr < here then Some(Decoded(addr, 1, Remember(c, addr))) else None
  }

  lemma InitWellFormed(near: nat, same: nat)
    requires 2 + near + same <= 256
    ensures WellFormed(InitCache(near, same)) && ModeCount(InitCache(near, same)) == 2 + near + same
  {
  }

  lemma RememberWellFormed(c: Cache, addr: nat)
    requires WellFormed(c)
    ensures WellFormed(Remember(c, addr))
  {
  }

  /** A decoded address does not depend on the bytes behind it. */
  lemma DecodePrefix(c: Cache, mode: nat, data: Bytes, suffix: Bytes, here: nat)
    requires Shaped(c) && mode < ModeCount(c)
    requires Decode(c, mode, data, here).Some?
    ensures Decode(c, mode, data + suffix, here) == Decode(c, mode, data, here)
  {
    if mode < SameStart(c) {
      Varint.ReadPrefix(data, suffix, U64_BOUND);
    }
  }

  // ---------------------------------------------------------------------
  // What the cache holds
  // ---------------------------------------------------------------------

  /** The cache after a run of addresses. */
  function After(near: nat, same: nat, addrs: seq<nat>): (c: Cache)
    requires 2 + near + same <= 256
    ensures Shaped(c) && |c.near| == near && |c.same| == same * 256
  {
    if addrs == [] then InitCache(near, same) else Remember(After(near, same, addrs[..|addrs| - 1]), addrs[|addrs| - 1])
  }

  /**
    NEAR is a circle of the last addresses: address number `k` is in slot `k`
    modulo the size until it is overwritten a full turn later.
    */
  ghost predicate HoldsNear(c: Cache, addrs: seq<nat>) {
    var size := |c.near|;
    && (forall k :: 0 <= k < |addrs| && |addrs| - size <= k ==> c.near[k % size] == addrs[k])
    && (forall j :: |addrs| <= j < size ==> c.near[j] == 0)
    && (size > 0 ==> c.next == |addrs| % size)
  }

  /** No address after number `k` falls into its SAME slot. */
  ghost predicate LastOfSlot(addrs: seq<nat>, k: nat, size: nat)
    requires k < |addrs| && size > 0
  {
    forall j :: k < j < |addrs| ==> addrs[j] % size != addrs[k] % size
  }

  /** Each SAME slot holds the latest address that falls into it. */
  ghost predicate HoldsSame(c: Cache, addrs: seq<nat>) {
    var size := |c.same|;
    && (forall k :: 0 <= k < |addrs| && size > 0 && LastOfSlot(addrs, k, size) ==> c.same[addrs[k] % size] == addrs[k])
    && (forall i :: 0 <= i < size && (forall k :: 0 <= k < |addrs| ==> addrs[k] % size != i) ==> c.same[i] == 0)
  }

  lemma NearSnoc(c: Cache, addrs: seq<nat>, a: nat)
    requires Shaped(c) && HoldsNear(c, addrs)
    ensures HoldsNear(Remember(c, a), addrs + [a])
  {
    var size, n, all := |c.near|, |addrs|, addrs + [a];
    var d := Remember(c, a);
    if size > 0 {
      NextRemainder(n, size);
      forall k | 0 <= k < n + 1 && n + 1 - size <= k
        ensures d.near[k % size] == all[k]
      {
        if k < n && k % size == n % size {
          RemaindersApart(k, n, size);
        }
      }
      if n < size {
        SmallMod(n, size);
      }
    }
  }

  lemma SameSnoc(c: Cache, addrs: seq<nat>, a: nat)
    requires Shaped(c) && HoldsSame(c, addrs)
    ensures HoldsSame(Remember(c, a), addrs + [a])
  {
    var size, n, all := |c.same|, |addrs|, addrs + [a];
    var d := Remember(c, a);
    if size > 0 {
      assert all[n] == a;
      forall k | 0 <= k < n + 1 && LastOfSlot(all, k, size)
        ensures d.same[all[k] % size] == all[k]
      {
        if k < n {
          assert all[k] == addrs[k];
          assert forall j :: k < j < n ==> addrs[j] == all[j];
          assert LastOfSlot(addrs, k, size);
        }
      }
      forall i | 0 <= i < size && (forall k :: 0 <= k < n + 1 ==> all[k] % size != i)
        ensures d.same[i] == 0
      {
        assert forall k :: 0 <= k < n ==> addrs[k] == all[k];
      }
    }
  }

  /** After any run of addresses the cache holds the latest of them, each in its place. */
  lemma {:induction false} AfterHolds(near: nat, same: nat, addrs: seq<nat>)
    requires 2 + near + same <= 256
    ensures HoldsNear(After(near, same, addrs), addrs) && HoldsSame(After(near, same, addrs), addrs)
    decreases |addrs|
  {
    hide Remember, HoldsNear, HoldsSame;
    if addrs == [] {
      NothingHeld(near, same);
    } else {
      var n := |addrs| - 1;
      AfterHolds(near, same, addrs[..n]);
      assert addrs[..n] + [addrs[n]] == addrs;
      NearSnoc(After(near, same, addrs[..n]), addrs[..n], addrs[n]);
      SameSnoc(After(near, same, addrs[..n]), addrs[..n], addrs[n]);
    }
  }

  lemma NothingHeld(near: nat, same: nat)
    requires 2 + near + same <= 256
    ensures HoldsNear(InitCache(near, same), []) && HoldsSame(InitCache(near, same), [])
  {
    if near > 0 {
      SmallMod(0, near);
    }
  }

  /** The meaning of each mode, for any cache and any bytes behind the address. */
  lemma ModeMeaning(c: Cache, raw: nat, here: nat, suffix: Bytes)
    requires Shaped(c) && raw < U64_BOUND
    ensures var data := Varint.Encode(raw) + suffix;
            && Decode(c, 0, data, here) == Placed(c, raw, |Varint.Encode(raw)|, here)
            && Decode(c, 1, data, here) == Placed(c, here - raw, |Varint.Encode(raw)|, here)
            && forall i :: 0 <= i < |c.near| && c.near[i] + raw < U64_BOUND ==>
                 Decode(c, 2 + i, data, here) == Placed(c, c.near[i] + raw, |Varint.Encode(raw)|, here)
  {
    hide Remember, Varint.Read, Varint.Encode;
    Varint.ReadEncode(raw, suffix, U64_BOUND);
  }

  lemma SameMeaning(c: Cache, group: nat, b: Byte, here: nat, suffix: Bytes)
    requires Shaped(c) && group < |c.same| / 256
    ensures Decode(c, 2 + |c.near| + group, [b] + suffix, here) == Placed(c, c.same[group * 256 + b], 1, here)
  {
    hide Remember;
  }

  /** An address that was read, if it is one before the current position. */
  ghost function Placed(c: Cache, addr: int, consumed: nat, here: nat): Option<Decoded>
    requires Shaped(c)
  {
    if 0 <= addr < here then Some(Decoded(addr, consumed, Remember(c, addr))) else None
  }

  // ---------------------------------------------------------------------
  // Forms of an address
  // ---------------------------------------------------------------------

  /** `bytes` in `mode` reads back as `addr`, and nothing is left over. */
  ghost predicate IsForm(c: Cache, addr: nat, here: nat, mode: nat, bytes: Bytes)
    requires WellFormed(c)
  {
    && mode < ModeCount(c)
    && Decode(c, mode, bytes, here) == Some(Decoded(addr, |bytes|, Remember(c, addr)))
  }

  /** No form of the address, in any mode, is shorter than `n` bytes. */
  ghost predicate NoneShorter(c: Cache, addr: nat, here: nat, n: nat)
    requires WellFormed(c)
  {
    forall mode: nat, bytes: Bytes :: IsForm(c, addr, here, mode, bytes) ==> n <= |bytes|
  }

  /** The varint that writes `addr` in a SELF, HERE or NEAR mode, if there is one. */
  function Offset(c: Cache, addr: nat, here: nat, mode: nat): Option<nat>
    requires mode < SameStart(c)
  {
    if mode == VCD_SELF then Some(addr)
    else if mode == VCD_HERE then if addr <= here then Some(here - addr) else None
    else if c.near[mode - 2] <= addr then Some(addr - c.near[mode - 2]) else None
  }

  lemma ResolvedForm(c: Cache, addr: nat, here: nat, mode: nat, raw: nat, bytes: Bytes)
    requires WellFormed(c) && addr < here && mode < SameStart(c)
    requires Resolve(c, mode, raw, here) == Some(addr)
    requires Varint.Read(bytes, U64_BOUND) == Varint.Got(raw, |bytes|)
    ensures IsForm(c, addr, here, mode, bytes)
  {
  }

  lemma OffsetForm(c: Cache, addr: nat, here: nat, mode: nat, d: nat)
    requires WellFormed(c) && addr < here && addr < U64_BOUND
    requires mode < SameStart(c) && Offset(c, addr, here, mode) == Some(d)
    requires d < U64_BOUND
    ensures IsForm(c, addr, here, mode, Varint.Encode(d))
  {
    assert Resolve(c, mode, d, here) == Some(addr);
    var bytes := Varint.Encode(d);
    assert Varint.Read(bytes, U64_BOUND) == Varint.Got(d, |bytes|) by {
      Varint.ReadEncode(d, [], U64_BOUND);
      assert bytes + [] == bytes;
    }
    ResolvedForm(c, addr, here, mode, d, bytes);
  }

  lemma SameForm(c: Cache, addr: nat, here: nat)
    requires WellFormed(c) && addr < here
    requires c.same != [] && c.same[addr % |c.same|] == addr
    ensures var i := addr % |c.same|;
            IsForm(c, addr, here, SameStart(c) + i / 256, [i % 256])
  {
  }

  lemma FormNotEmpty(c: Cache, addr: nat, here: nat)
    requires WellFormed(c)
    ensures NoneShorter(c, addr, here, 1)
  {
    forall mode: nat, bytes: Bytes | IsForm(c, addr, here, mode, bytes)
      ensures 1 <= |bytes|
    {
    }
  }

  /** A form in a varint mode is at least as long as the canonical varint. */
  lemma VarintFormLength(c: Cache, addr: nat, here: nat, mode: nat, bytes: Bytes)
    requires WellFormed(c) && mode < SameStart(c)
    requires IsForm(c, addr, here, mode, bytes)
    ensures Offset(c, addr, here, mode).Some?
    ensures |Varint.Encode(Offset(c, addr, here, mode).value)| <= |bytes|
  {
    hide Remember, Varint.Encode;
    assert bytes[..|bytes|] == bytes;
    Varint.EncodeShortest(Varint.Value(bytes), bytes);
  }

  /** The least offset gives a shortest form when the SAME slot does not hold the address. */
  lemma LeastOffsetShortest(c: Cache, addr: nat, here: nat, d: nat)
    requires WellFormed(c) && 0 < addr < here
    requires d <= addr && d <= here - addr
    requires forall i :: 0 <= i < |c.near| && c.near[i] <= addr ==> d <= addr - c.near[i]
    requires c.same != [] ==> c.same[addr % |c.same|] != addr
    ensures NoneShorter(c, addr, here, |Varint.Encode(d)|)
  {
    forall mode: nat, bytes: Bytes | IsForm(c, addr, here, mode, bytes)
      ensures |Varint.Encode(d)| <= |bytes|
    {
      if mode < SameStart(c) {
        VarintFormLength(c, addr, here, mode, bytes);
        Varint.EncodeMonotone(d, Offset(c, addr, here, mode).value);
      }
    }
  }

  // ---------------------------------------------------------------------
  // Which form is written
  // ---------------------------------------------------------------------

  /** An offset and its mode. */
  datatype Best = Best(d: nat, mode: nat)

  /** The first NEAR slot from `i` on that beats `best`, and so on until an offset fits one byte. */
  function BestNear(c: Cache, addr: nat, best: Best, i: nat): (r: Best)
    ensures r.mode == best.mode || 2 <= r.mode < 2 + |c.near|
    decreases |c.near| - i
  {
    if best.d <= 127 || i >= |c.near| then best
    else if c.near[i] <= addr && addr - c.near[i] < best.d then
      BestNear(c, addr, Best(addr - c.near[i], i + 2), i + 1)
    else BestNear(c, addr, best, i + 1)
  }

  function BestOffset(c: Cache, addr: nat, here: nat): Best
    requires addr < here
  {
    if addr <= 127 || addr <= here - addr then BestNear(c, addr, Best(addr, VCD_SELF), 0)
    else BestNear(c, addr, Best(here - addr, VCD_HERE), 0)
  }

  /** The offset in an earlier mode does not beat this one: it is longer than a byte, and not less. */
  ghost predicate Beats(b: Best, d: nat, mode: nat) {
    if b.d <= 127 then mode < b.mode ==> d > 127
    else b.d <= d && (d == b.d ==> b.mode <= mode)
  }

  lemma {:induction false} BestNearFirst(c: Cache, addr: nat, best: Best, i: nat, j: nat)
    requires i <= j < |c.near| && c.near[j] <= addr && best.mode < 2 + i
    ensures Beats(BestNear(c, addr, best, i), addr - c.near[j], 2 + j)
    ensures BestNear(c, addr, best, i).d <= best.d
    decreases |c.near| - i
  {
    if best.d > 127 {
      var next := if c.near[i] <= addr && addr - c.near[i] < best.d then Best(addr - c.near[i], i + 2) else best;
      if i < j {
        BestNearFirst(c, addr, next, i + 1, j);
      } else {
        BestNearKeeps(c, addr, next, i + 1);
      }
    }
  }

  /** What is found later is less than what was there. */
  lemma {:induction false} BestNearKeeps(c: Cache, addr: nat, best: Best, i: nat)
    requires best.mode < 2 + i
    ensures var r := BestNear(c, addr, best, i);
            r == best || (r.d < best.d && r.mode >= 2 + i && best.d > 127)
    decreases |c.near| - i
  {
    if best.d > 127 && i < |c.near| {
      var next := if c.near[i] <= addr && addr - c.near[i] < best.d then Best(addr - c.near[i], i + 2) else best;
      BestNearKeeps(c, addr, next, i + 1);
    }
  }

  /**
    Of the SELF, HERE and NEAR modes the first whose offset fits one byte is
    used; if there is none, the first of those with the least offset.
    */
  lemma BestOffsetFirst(c: Cache, addr: nat, here: nat, mode: nat, d: nat)
    requires addr < here && mode < SameStart(c) && Offset(c, addr, here, mode) == Some(d)
    ensures Beats(BestOffset(c, addr, here), d, mode)
  {
    var start := if addr <= 127 || addr <= here - addr then Best(addr, VCD_SELF) else Best(here - addr, VCD_HERE);
    BestNearKeeps(c, addr, start, 0);
    if mode >= 2 {
      BestNearFirst(c, addr, start, 0, mode - 2);
    }
  }

  /** The mode and the bytes written: SAME only if no offset fits one byte. */
  function Preferred(c: Cache, addr: nat, here: nat): (r: (nat, Bytes))
    requires addr < here
    ensures Shaped(c) ==> r.0 < ModeCount(c)
  {
    var best := BestOffset(c, addr, here);
    if best.d > 127 && c.same != [] && c.same[addr % |c.same|] == addr then
      (SameStart(c) + addr % |c.same| / 256, [addr % |c.same| % 256])
    else (best.mode, Varint.Encode(best.d))
  }

  // ---------------------------------------------------------------------
  // Whole runs
  // ---------------------------------------------------------------------

  /** One COPY on the encoding side: its address, its position and the form chosen for it. */
  datatype Step = Step(addr: nat, here: nat, mode: nat, bytes: Bytes)

  /** Every step carries a form of its address in the state the earlier steps lead to. */
  ghost predicate EncodesRun(c: Cache, steps: seq<Step>)
    requires WellFormed(c)
    decreases steps
  {
    steps != [] ==>
      && IsForm(c, steps[0].addr, steps[0].here, steps[0].mode, steps[0].bytes)
      && (RememberWellFormed(c, steps[0].addr);
          EncodesRun(Remember(c, steps[0].addr), steps[1..]))
  }

  function Written(steps: seq<Step>): Bytes {
    if steps == [] then [] else steps[0].bytes + Written(steps[1..])
  }

  function Addresses(steps: seq<Step>): seq<nat> {
    if steps == [] then [] else [steps[0].addr] + Addresses(steps[1..])
  }

  function RememberAll(c: Cache, steps: seq<Step>): (r: Cache)
    requires Shaped(c)
    ensures Shaped(r)
    decreases steps
  {
    if steps == [] then c else RememberAll(Remember(c, steps[0].addr), steps[1..])
  }

  lemma {:induction false} RememberAllSnoc(c: Cache, steps: seq<Step>, s: Step)
    requires Shaped(c)
    ensures RememberAll(c, steps + [s]) == Remember(RememberAll(c, steps), s.addr)
    ensures Addresses(steps + [s]) == Addresses(steps) + [s.addr]
    decreases |steps|
  {
    hide Remember;
    if steps == [] {
      assert [s][1..] == [] && [] + [s] == [s];
    } else {
      assert (steps + [s])[1..] == steps[1..] + [s];
      RememberAllSnoc(Remember(c, steps[0].addr), steps[1..], s);
    }
  }

  /** Whatever run of steps a window makes, its cache holds the latest addresses of the run. */
  lemma {:induction false} RunHolds(near: nat, same: nat, steps: seq<Step>)
    requires 2 + near + same <= 256
    ensures Shaped(InitCache(near, same))
    ensures RememberAll(InitCache(near, same), steps) == After(near, same, Addresses(steps))
    ensures HoldsNear(RememberAll(InitCache(near, same), steps), Addresses(steps))
    ensures HoldsSame(RememberAll(InitCache(near, same), steps), Addresses(steps))
    decreases |steps|
  {
    hide Remember, HoldsNear, HoldsSame;
    InitWellFormed(near, same);
    AfterHolds(near, same, Addresses(steps));
    if steps != [] {
      var n := |steps| - 1;
      assert steps[..n] + [steps[n]] == steps;
      RememberAllSnoc(InitCache(near, same), steps[..n], steps[n]);
      RunHolds(near, same, steps[..n]);
      assert (Addresses(steps[..n]) + [steps[n].addr])[..|Addresses(steps[..n])|] == Addresses(steps[..n]);
    }
  }

  /** All that the decoder knows of a step besides the address bytes. */
  datatype Ask = Ask(mode: nat, here: nat)

  function Asks(steps: seq<Step>): seq<Ask> {
    if steps == [] then [] else [Ask(steps[0].mode, steps[0].here)] + Asks(steps[1..])
  }

  ghost function DecodeRun(c: Cache, asks: seq<Ask>, data: Bytes): Option<(seq<nat>, Bytes, Cache)>
    requires WellFormed(c)
    decreases asks
  {
    if asks == [] then Some(([], data, c))
    else if asks[0].mode >= ModeCount(c) then None
    else
      match Decode(c, asks[0].mode, data, asks[0].here)
      case None => None
      case Some(d) =>
        RememberWellFormed(c, d.addr);
        match DecodeRun(d.cache, asks[1..], data[d.consumed..])
        case None => None
        case Some((addrs, rest, last)) => Some(([d.addr] + addrs, rest, last))
  }

  /**
    Over a whole run the decoder recovers every address, consumes exactly the
    bytes written, and both caches end in the same state.
    */
  lemma {:induction false} Lockstep(c: Cache, steps: seq<Step>, suffix: Bytes)
    requires WellFormed(c) && EncodesRun(c, steps)
    ensures DecodeRun(c, Asks(steps), Written(steps) + suffix)
         == Some((Addresses(steps), suffix, RememberAll(c, steps)))
    decreases steps
  {
    hide Decode, Remember;
    if steps == [] {
      assert Written(steps) + suffix == suffix;
    } else {
      var s, rest := steps[0], steps[1..];
      RememberWellFormed(c, s.addr);
      Lockstep(Remember(c, s.addr), rest, suffix);
      assert Written(steps) + suffix == s.bytes + (Written(rest) + suffix);
      DecodePrefix(c, s.mode, s.bytes, Written(rest) + suffix, s.here);
      assert (Written(steps) + suffix)[|s.bytes|..] == Written(rest) + suffix;
      assert Asks(steps)[1..] == Asks(rest);
    }
  }

  lemma {:induction false} EncodesRunSnoc(c: Cache, steps: seq<Step>, s: Step)
    requires WellFormed(c) && EncodesRun(c, steps) && WellFormed(RememberAll(c, steps))
    requires IsForm(RememberAll(c, steps), s.addr, s.here, s.mode, s.bytes)
    ensures EncodesRun(c, steps + [s])
    ensures RememberAll(c, steps + [s]) == Remember(RememberAll(c, steps), s.addr)
    decreases |steps|
  {
    hide IsForm, Remember;
    if steps == [] {
      assert [s][1..] == [];
      assert [] + [s] == [s];
      RememberWellFormed(c, s.addr);
    } else {
      assert (steps + [s])[1..] == steps[1..] + [s];
      RememberWellFormed(c, steps[0].addr);
      EncodesRunSnoc(Remember(c, steps[0].addr), steps[1..], s);
    }
  }

  /** What one side is asked to encode. */
  datatype Request = Request(addr: nat, here: nat)

  /** The steps answer the requests, in order. */
  ghost predicate Answers(steps: seq<Step>, requests: seq<Request>) {
    && |steps| == |requests|
    && forall i :: 0 <= i < |steps| ==> steps[i].addr == requests[i].addr && steps[i].here == requests[i].here
  }

  /** Encodes any addresses one after the other; together the steps are a run that decodes in lockstep. */
  method EncodeRun(cache: AddressCache, requests: seq<Request>) returns (steps: seq<Step>)
    requires cache.Valid()
    requires forall i :: 0 <= i < |requests| ==> requests[i].addr < requests[i].here && requests[i].addr < U64_BOUND
    modifies cache, cache.near, cache.same
    ensures cache.Valid() && Answers(steps, requests)
    ensures EncodesRun(old(cache.State()), steps)
    ensures cache.State() == RememberAll(old(cache.State()), steps)
  {
    hide IsForm, NoneShorter, Remember, Preferred, EncodesRun, RememberAll;
    ghost var c := cache.State();
    steps := [];
    RunStarts(c);
    for k := 0 to |requests|
      invariant cache.Valid() && Answers(steps, requests[..k])
      invariant EncodesRun(c, steps) && cache.State() == RememberAll(c, steps)
    {
      var r := requests[k];
      var mode, bytes := cache.Encode(r.addr, r.here);
      EncodesRunSnoc(c, steps, Step(r.addr, r.here, mode, bytes));
      steps := steps + [Step(r.addr, r.here, mode, bytes)];
    }
    assert requests[..|requests|] == requests;
  }

  lemma RunStarts(c: Cache)
    requires WellFormed(c)
    ensures EncodesRun(c, []) && RememberAll(c, []) == c
  {
  }

  /** Decodes addresses one after the other, given their modes and positions. */
  method DecodeAddresses(cache: AddressCache, asks: seq<Ask>, data: Bytes) returns (r: Option<(seq<nat>, Bytes)>)
    requires cache.Valid()
    modifies cache, cache.near, cache.same
    ensures cache.Valid()
    ensures DecodeRun(old(cache.State()), asks, data).None? ==> r == None
    ensures DecodeRun(old(cache.State()), asks, data).Some? ==>
              var d := DecodeRun(old(cache.State()), asks, data).value;
              r == Some((d.0, d.1)) && cache.State() == d.2
    decreases asks
  {
    hide Decode, Remember;
    if asks == [] {
      return Some(([], data));
    }
    if asks[0].mode >= cache.SameStartIndex() + cache.same.Length / 256 {
      return None;
    }
    var first := cache.DecodeAddress(asks[0].mode, data, asks[0].here);
    if first.None? {
      return None;
    }
    var (addr, consumed) := first.value;
    var rest := DecodeAddresses(cache, asks[1..], data[consumed..]);
    if rest.None? {
      return None;
    }
    return Some(([addr] + rest.value.0, rest.value.1));
  }

  /**
    Two caches in the same state: what one encodes, whatever the addresses, the
    other decodes, from exactly the bytes written, and they end in the same state.
    */
  method InLockstep(encoder: AddressCache, decoder: AddressCache, requests: seq<Request>, suffix: Bytes)
    returns (steps: seq<Step>, r: Option<(seq<nat>, Bytes)>)
    requires encoder.Valid() && decoder.Valid() && encoder.State() == decoder.State()
    requires {encoder.near, encoder.same} !! {decoder.near, decoder.same} && encoder != decoder
    requires forall i :: 0 <= i < |requests| ==> requests[i].addr < requests[i].here && requests[i].addr < U64_BOUND
    modifies encoder, encoder.near, encoder.same, decoder, decoder.near, decoder.same
    ensures Answers(steps, requests)
    ensures r == Some((Addresses(steps), suffix))
    ensures encoder.Valid() && decoder.Valid() && encoder.State() == decoder.State()
  {
    hide EncodesRun, DecodeRun, RememberAll, Remember, Answers;
    steps := EncodeRun(encoder, requests);
    Lockstep(decoder.State(), steps, suffix);
    r := DecodeAddresses(decoder, Asks(steps), Written(steps) + suffix);
  }

  // ---------------------------------------------------------------------
  // The cache object
  // ---------------------------------------------------------------------

  class AddressCache {
    const near: array<nat>
    const same: array<nat>
    var nextSlot: nat

    ghost function State(): Cache
      reads this, near, same
    {
      Cache(near[..], same[..], nextSlot)
    }

    ghost predicate Valid()
      reads this, near, same
    {
      near != same && WellFormed(State())
    }

    constructor (sNear: nat, sSame: nat)
      requires 2 + sNear + sSame <= 256
      ensures Valid() && fresh(near) && fresh(same)
      ensures State() == InitCache(sNear, sSame)
    {
      near := new nat[sNear](_ => 0);
      same := new nat[sSame * 256](_ => 0);
      nextSlot := 0;
      new;
      assert near[..] == InitCache(sNear, sSame).near;
      assert same[..] == InitCache(sNear, sSame).same;
      InitWellFormed(sNear, sSame);
    }

    method Init()
      requires Valid()
      modifies this, near, same
      ensures Valid()
      ensures State() == InitCache(near.Length, same.Length / 256)
    {
      forall i | 0 <= i < near.Length {
        near[i] := 0;
      }
      forall i | 0 <= i < same.Length {
        same[i] := 0;
      }
      nextSlot := 0;
      assert near[..] == InitCache(near.Length, same.Length / 256).near;
      assert same[..] == InitCache(near.Length, same.Length / 256).same;
      InitWellFormed(near.Length, same.Length / 256);
    }

    method Update(addr: nat)
      requires Valid()
      modifies this, near, same
      ensures Valid()
      ensures State() == Remember(old(State()), addr)
    {
      RememberWellFormed(State(), addr);
      if near.Length > 0 {
        near[nextSlot] := addr;
        nextSlot := (nextSlot + 1) % near.Length;
      }
      if same.Length > 0 {
        var idx := addr % same.Length;
        same[idx] := addr;
      }
      assert State().near == Remember(old(State()), addr).near;
      assert State().same == Remember(old(State()), addr).same;
    }

    method EmitNonSame(val: nat, mode: nat) returns (m: nat, bytes: Bytes)
      requires val < U64_BOUND
      ensures m == mode && bytes == Varint.Encode(val) && |bytes| <= 10
    {
      var buf := new Byte[10](_ => 0);
      var len := Varint.EncodeU64(val, buf);
      return mode, buf[10 - len..];
    }

    /** The search over NEAR slots, stopping at the first one-byte distance. */
    method SearchNear(addr: nat, here: nat, d0: nat, m0: nat) returns (bestD: nat, bestM: nat)
      requires Valid()
      requires m0 < 2 && Offset(State(), addr, here, m0) == Some(d0) && d0 > 127
      ensures Best(bestD, bestM) == BestNear(State(), addr, Best(d0, m0), 0)
      ensures bestM < SameStart(State()) && Offset(State(), addr, here, bestM) == Some(bestD) && bestD <= d0
      ensures bestD <= 127 ||
              forall i :: 0 <= i < near.Length && near[i] <= addr ==> bestD <= addr - near[i]
    {
      bestD, bestM := d0, m0;
      for i := 0 to near.Length
        invariant bestM < SameStart(State()) && Offset(State(), addr, here, bestM) == Some(bestD) && bestD <= d0
        invariant forall j :: 0 <= j < i && near[j] <= addr ==> bestD <= addr - near[j]
        invariant BestNear(State(), addr, Best(bestD, bestM), i) == BestNear(State(), addr, Best(d0, m0), 0)
        invariant bestD > 127
      {
        if addr >= near[i] {
          var d := addr - near[i];
          if d < bestD {
            bestD, bestM := d, i + 2;
            if bestD <= 127 {
              return;
            }
          }
        }
      }
    }

    /** The search over SELF, HERE and NEAR modes. */
    method SearchOffsets(addr: nat, here: nat) returns (bestD: nat, bestM: nat)
      requires Valid() && addr < here
      ensures Best(bestD, bestM) == BestOffset(State(), addr, here)
      ensures bestM < SameStart(State()) && Offset(State(), addr, here, bestM) == Some(bestD) && bestD <= addr
      ensures bestD <= 127 ||
              (&& bestD <= here - addr
               && forall i :: 0 <= i < near.Length && near[i] <= addr ==> bestD <= addr - near[i])
    {
      bestD, bestM := addr, VCD_SELF;
      if bestD <= 127 {
        return;
      }
      var d := here - addr;
      if d < bestD {
        bestD, bestM := d, VCD_HERE;
        if bestD <= 127 {
          return;
        }
      }
      bestD, bestM := SearchNear(addr, here, bestD, bestM);
    }

    /** Picks the mode and the bytes, leaving the cache alone. */
    method Choose(addr: nat, here: nat) returns (mode: nat, bytes: Bytes)
      requires Valid()
      requires addr < here && addr < U64_BOUND
      ensures IsForm(State(), addr, here, mode, bytes) && |bytes| <= 10
      ensures NoneShorter(State(), addr, here, |bytes|)
      ensures (mode, bytes) == Preferred(State(), addr, here)
    {
      hide BestOffset, IsForm, NoneShorter;
      FormNotEmpty(State(), addr, here);
      var bestD, bestM := SearchOffsets(addr, here);
      OffsetForm(State(), addr, here, bestM, bestD);
      if bestD > 127 {
        if same.Length > 0 {
          var idx := addr % same.Length;
          if same[idx] == addr {
            SameForm(State(), addr, here);
            return SameStartIndex() + idx / 256, [idx % 256];
          }
        }
        LeastOffsetShortest(State(), addr, here, bestD);
      }
      mode, bytes := EmitNonSame(bestD, bestM);
    }

    function SameStartIndex(): (m: nat)
      reads this
      ensures m == 2 + near.Length
    {
      2 + near.Length
    }

    /** Encodes one address: the form is a shortest one, and the address is remembered. */
    method Encode(addr: nat, here: nat) returns (mode: nat, bytes: Bytes)
      requires Valid()
      requires addr < here && addr < U64_BOUND
      modifies this, near, same
      ensures Valid()
      ensures IsForm(old(State()), addr, here, mode, bytes) && |bytes| <= 10
      ensures NoneShorter(old(State()), addr, here, |bytes|)
      ensures (mode, bytes) == Preferred(old(State()), addr, here)
      ensures State() == Remember(old(State()), addr)
    {
      mode, bytes := Choose(addr, here);
      Update(addr);
    }

    /** Decodes one address; on failure the cache is unchanged. */
    method DecodeAddress(mode: nat, data: Bytes, here: nat) returns (r: Option<(nat, nat)>)
      requires Valid()
      requires mode < ModeCount(State())
      modifies this, near, same
      ensures Valid()
      ensures match Decode(old(State()), mode, data, here)
              case Some(d) => r == Some((d.addr, d.consumed)) && State() == d.cache
              case None => r == None && State() == old(State())
    {
      var sameStart := SameStartIndex();
      var addr: nat, consumed: nat;
      if mode < sameStart {
        var reading := Varint.ReadInteger(data, U64_BOUND);
        if reading.Failed? {
          return None;
        }
        consumed := reading.consumed;
        var raw := reading.value;
        if mode == 0 {
          addr := raw;
        } else if mode == 1 {
          if raw > here {
            return None;
          }
          addr := here - raw;
        } else {
          addr := near[mode - 2] + raw;
          if addr >= U64_BOUND {
            return None;
          }
        }
      } else {
        if data == [] {
          return None;
        }
        addr, consumed := same[(mode - sameStart) * 256 + data[0]], 1;
      }
      if addr >= here {
        return None;
      }
      Update(addr);
      return Some((addr, consumed));
    }
  }
}
