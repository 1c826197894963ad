/** The two hash tables: target positions with chains, source positions without. */
module Tables {
  import opened Base
  import opened Arithmetic
  import opened Rolling

  /** A hash function into `size` buckets. */
  datatype HashCfg = HashCfg(size: nat, bucket: nat -> nat)

  ghost predicate ValidCfg(cfg: HashCfg) {
    forall c :: cfg.bucket(c) < cfg.size
  }

  /** Stored positions are offset by one, so that zero means empty. */
  function Stored(p: Option<nat>): nat {
    if p.None? then 0 else p.value + 1
  }

  // ---------------------------------------------------------------------
  // Full history of the target table
  // ---------------------------------------------------------------------

  datatype Entry = Entry(bucket: nat, pos: nat)

  ghost predicate Increasing(history: seq<Entry>) {
    forall i, j :: 0 <= i < j < |history| ==> history[i].pos < history[j].pos
  }

  /** The latest position before `pos` in a bucket. */
  function LatestBefore(history: seq<Entry>, bucket: nat, pos: nat): (r: Option<nat>)
    ensures r.Some? ==> r.value < pos && Entry(bucket, r.value) in history
    ensures r.None? ==> forall e :: e in history && e.bucket == bucket ==> pos <= e.pos
  {
    if history == [] then None
    else
      var last := history[|history| - 1];
      if last.bucket == bucket && last.pos < pos then Some(last.pos)
      else LatestBefore(history[..|history| - 1], bucket, pos)
  }

  /** The latest position in a bucket. */
  function Latest(history: seq<Entry>, bucket: nat): (r: Option<nat>)
    ensures r.Some? ==> Entry(bucket, r.value) in history
  {
    if history == [] then None
    else
      var last := history[|history| - 1];
      if last.bucket == bucket then Some(last.pos) else Latest(history[..|history| - 1], bucket)
  }

  /** The slot of a position in a circular buffer. */
  function SlotOf(pos: nat, size: nat): (slot: nat)
    requires size > 0
    ensures slot < size
  {
    pos % size
  }

  /** The latest entry whose position falls into a slot of a circular buffer. */
  function LatestInSlot(history: seq<Entry>, size: nat, slot: nat): (r: Option<Entry>)
    requires size > 0
    ensures r.Some? ==> r.value in history && SlotOf(r.value.pos, size) == slot
  {
    if history == [] then None
    else
      var last := history[|history| - 1];
      if SlotOf(last.pos, size) == slot then Some(last) else LatestInSlot(history[..|history| - 1], size, slot)
  }

  /** What a slot of the chain buffer should hold: the predecessor of the latest position in it. */
  function SlotContent(history: seq<Entry>, size: nat, slot: nat): Option<nat>
    requires size > 0
  {
    var l := LatestInSlot(history, size, slot);
    if l.None? then None else LatestBefore(history, l.value.bucket, l.value.pos)
  }

  /**
    One step back in a chain, by the full history: the latest earlier position
    in the bucket, unless it is `size` or more positions behind `cur`.
    */
  function ChainPrev(history: seq<Entry>, size: nat, bucket: nat, pos: nat, cur: nat): (r: Option<nat>)
    ensures r.Some? ==> r.value < pos && Entry(bucket, r.value) in history
  {
    if size == 0 then None
    else
      match LatestBefore(history, bucket, pos)
      case None => None
      case Some(p) => if cur - p <= size - 1 then Some(p) else None
  }

  lemma {:induction false} LatestBeforeIff(history: seq<Entry>, bucket: nat, pos: nat, p: nat)
    requires Increasing(history)
    ensures LatestBefore(history, bucket, pos) == Some(p)
       <==> && Entry(bucket, p) in history && p < pos
            && forall e :: e in history && e.bucket == bucket && e.pos < pos ==> e.pos <= p
  {
    if history != [] {
      var n := |history| - 1;
      var last := history[n];
      assert history == history[..n] + [last];
      assert forall e :: e in history[..n] ==> e.pos < last.pos;
      LatestBeforeIff(history[..n], bucket, pos, p);
    }
  }

  lemma {:induction false} LatestIff(history: seq<Entry>, bucket: nat, p: nat)
    requires Increasing(history)
    ensures Latest(history, bucket) == Some(p)
       <==> Entry(bucket, p) in history && forall e :: e in history && e.bucket == bucket ==> e.pos <= p
  {
    if history != [] {
      var n := |history| - 1;
      var last := history[n];
      assert history == history[..n] + [last];
      assert forall e :: e in history[..n] ==> e.pos < last.pos;
      LatestIff(history[..n], bucket, p);
    }
  }

  lemma {:induction false} LatestExists(history: seq<Entry>, e: Entry)
    requires e in history
    ensures Latest(history, e.bucket).Some?
  {
    var n := |history| - 1;
    if history[n].bucket != e.bucket {
      assert e in history[..n];
      LatestExists(history[..n], e);
    }
  }

  /** Exactly which position a step back in a chain leads to. */
  lemma ChainPrevIff(history: seq<Entry>, size: nat, bucket: nat, pos: nat, cur: nat, p: nat)
    requires Increasing(history)
    ensures ChainPrev(history, size, bucket, pos, cur) == Some(p)
       <==> && Entry(bucket, p) in history && p < pos && cur - p < size && size > 0
            && forall e :: e in history && e.bucket == bucket && e.pos < pos ==> e.pos <= p
  {
    LatestBeforeIff(history, bucket, pos, p);
  }

  lemma {:induction false} LatestBeforeAll(history: seq<Entry>, bucket: nat, pos: nat)
    requires forall e :: e in history ==> e.pos < pos
    ensures LatestBefore(history, bucket, pos) == Latest(history, bucket)
  {
    if history != [] {
      assert history[|history| - 1] in history;
      LatestBeforeAll(history[..|history| - 1], bucket, pos);
    }
  }

  lemma LatestBeforeSnoc(history: seq<Entry>, e: Entry, bucket: nat, pos: nat)
    requires pos <= e.pos
    ensures LatestBefore(history + [e], bucket, pos) == LatestBefore(history, bucket, pos)
  {
    assert (history + [e])[..|history|] == history;
  }

  lemma LatestSnoc(history: seq<Entry>, e: Entry, bucket: nat)
    ensures Latest(history + [e], bucket) == if bucket == e.bucket then Some(e.pos) else Latest(history, bucket)
  {
    assert (history + [e])[..|history|] == history;
  }

  lemma LatestInSlotSnoc(history: seq<Entry>, e: Entry, size: nat, slot: nat)
    requires size > 0
    ensures LatestInSlot(history + [e], size, slot)
         == if SlotOf(e.pos, size) == slot then Some(e) else LatestInSlot(history, size, slot)
  {
    assert (history + [e])[..|history|] == history;
  }

  /** The latest entry of its slot is not older than any entry of that slot. */
  lemma {:induction false} LatestInSlotIsLatest(history: seq<Entry>, size: nat, e: Entry)
    requires size > 0 && Increasing(history) && e in history
    ensures LatestInSlot(history, size, SlotOf(e.pos, size)).Some?
    ensures var l := LatestInSlot(history, size, SlotOf(e.pos, size)).value;
            e.pos <= l.pos && (e.pos == l.pos ==> e == l)
  {
    var n := |history| - 1;
    if SlotOf(history[n].pos, size) != SlotOf(e.pos, size) {
      assert e in history[..n];
      LatestInSlotIsLatest(history[..n], size, e);
    } else if e != history[n] {
      assert e in history[..n];
    }
  }

  /** Two different positions in the same slot are at least `size` apart. */
  lemma SlotDistance(p: nat, q: nat, size: nat)
    requires size > 0 && p < q && SlotOf(p, size) == SlotOf(q, size)
    ensures p + size <= q
  {
    RemaindersApart(p, q, size);
  }

  // ---------------------------------------------------------------------
  // The target table
  // ---------------------------------------------------------------------

  ghost predicate Bounded(history: seq<Entry>, size: nat) {
    forall e :: e in history ==> e.bucket < size
  }

  lemma HistorySnoc(history: seq<Entry>, e: Entry, size: nat)
    requires Increasing(history) && Bounded(history, size) && e.bucket < size
    requires forall x :: x in history ==> x.pos < e.pos
    ensures Increasing(history + [e]) && Bounded(history + [e], size)
  {
  }

  /** Every bucket holds the latest position inserted in it. */
  ghost predicate Heads(table: seq<nat>, history: seq<Entry>) {
    forall b :: 0 <= b < |table| ==> table[b] == Stored(Latest(history, b))
  }

  /** Every chain slot holds the predecessor of the latest position that fell into it. */
  ghost predicate Links(prev: seq<nat>, history: seq<Entry>) {
    forall i :: 0 <= i < |prev| ==> prev[i] == Stored(SlotContent(history, |prev|, i))
  }

  lemma HeadsSnoc(table: seq<nat>, history: seq<Entry>, e: Entry)
    requires Heads(table, history) && e.bucket < |table|
    ensures Heads(table[e.bucket := e.pos + 1], history + [e])
  {
    hide Latest;
    forall b | 0 <= b < |table|
      ensures table[e.bucket := e.pos + 1][b] == Stored(Latest(history + [e], b))
    {
      LatestSnoc(history, e, b);
    }
  }

  lemma LinksSnoc(table: seq<nat>, prev: seq<nat>, history: seq<Entry>, e: Entry)
    requires Heads(table, history) && Links(prev, history) && e.bucket < |table| && |prev| > 0
    requires forall x :: x in history ==> x.pos < e.pos
    ensures Links(prev[SlotOf(e.pos, |prev|) := table[e.bucket]], history + [e])
  {
    hide SlotContent, Latest, SlotOf;
    forall i | 0 <= i < |prev|
      ensures prev[SlotOf(e.pos, |prev|) := table[e.bucket]][i] == Stored(SlotContent(history + [e], |prev|, i))
    {
      SlotContentSnoc(history, e, |prev|, i);
    }
  }

  lemma SlotContentSnoc(history: seq<Entry>, e: Entry, size: nat, slot: nat)
    requires size > 0 && forall x :: x in history ==> x.pos < e.pos
    ensures SlotContent(history + [e], size, slot)
         == if slot == SlotOf(e.pos, size) then Latest(history, e.bucket) else SlotContent(history, size, slot)
  {
    hide LatestInSlot, LatestBefore, Latest, SlotOf;
    LatestInSlotSnoc(history, e, size, slot);
    var l := LatestInSlot(history + [e], size, slot);
    if l.Some? {
      LatestBeforeSnoc(history, e, l.value.bucket, l.value.pos);
      LatestBeforeAll(history, e.bucket, e.pos);
    }
  }

  lemma NoLinks(prev: seq<nat>, history: seq<Entry>)
    requires prev == []
    ensures Links(prev, history)
  {
  }

  class SmallTable {
    const cfg: HashCfg
    const table: array<nat>
    /** The circular chain buffer; empty when chaining is off. Its size is a power of two. */
    const prev: array<nat>

    /** Everything inserted since the last reset. */
    ghost var history: seq<Entry>

    ghost predicate Valid()
      reads this, table, prev
    {
      && ValidCfg(cfg)
      && table != prev && table.Length == cfg.size
      && Increasing(history) && Bounded(history, cfg.size)
      && Heads(table[..], history)
      && Links(prev[..], history)
    }

    constructor (cfg: HashCfg, sprevsz: nat)
      requires ValidCfg(cfg)
      ensures Valid() && history == [] && this.cfg == cfg && prev.Length == sprevsz
      ensures fresh(table) && fresh(prev)
    {
      this.cfg := cfg;
      table := new nat[cfg.size](_ => 0);
      prev := new nat[sprevsz](_ => 0);
      history := [];
    }

    method Reset()
      requires Valid()
      modifies this, table, prev
      ensures Valid() && history == []
    {
      forall b | 0 <= b < table.Length {
        table[b] := 0;
      }
      forall i | 0 <= i < prev.Length {
        prev[i] := 0;
      }
      history := [];
    }

    /** The most recent position in the checksum's bucket. */
    method Lookup(cksum: nat) returns (r: Option<nat>)
      requires Valid()
      ensures r == Latest(history, cfg.bucket(cksum))
    {
      var val := table[cfg.bucket(cksum)];
      if val != 0 {
        return Some(val - 1);
      }
      return None;
    }

    /** Adds a position to its bucket; the old head goes to the chain slot of the position. */
    method Insert(cksum: nat, pos: nat)
      requires Valid()
      requires forall e :: e in history ==> e.pos < pos
      modifies this, table, prev
      ensures Valid()
      ensures history == if pos + 1 < U32_BOUND then old(history) + [Entry(cfg.bucket(cksum), pos)] else old(history)
    {
      if pos + 1 >= U32_BOUND {
        return;
      }
      hide Heads, Links, Increasing, Bounded, SlotOf, Latest, SlotContent;
      var bucket := cfg.bucket(cksum);
      ghost var e := Entry(bucket, pos);
      HistorySnoc(history, e, cfg.size);
      PushHead(bucket, pos, e);
      table[bucket] := pos + 1;
      assert table[..] == old(table[..])[bucket := pos + 1];
      HeadsSnoc(old(table[..]), history, e);
      history := history + [e];
    }

    /** Keeps the old head of a bucket in the chain slot of the new position. */
    method PushHead(bucket: nat, pos: nat, ghost e: Entry)
      requires Heads(table[..], history) && Links(prev[..], history)
      requires table != prev && bucket < table.Length && e == Entry(bucket, pos)
      requires forall x :: x in history ==> x.pos < pos
      modifies prev
      ensures Links(prev[..], history + [e])
    {
      hide Heads, Links, SlotOf, Latest, SlotContent;
      if prev.Length > 0 {
        LinksSnoc(table[..], prev[..], history, e);
        var slot := SlotOf(pos, prev.Length);
        prev[slot] := table[bucket];
        assert prev[..] == old(prev[..])[slot := table[bucket]];
      } else {
        NoLinks(prev[..], history + [e]);
      }
    }

    /**
      One step back in the chain of `pos`. Although slots are overwritten, the
      answer is exactly the one the full history gives.
      */
    method ChainBack(pos: nat, cur: nat, ghost bucket: nat) returns (r: Option<nat>)
      requires Valid()
      requires Entry(bucket, pos) in history
      requires forall e :: e in history ==> e.pos <= cur
      ensures r == ChainPrev(history, prev.Length, bucket, pos, cur)
    {
      if prev.Length == 0 {
        return None;
      }
      var val := prev[SlotOf(pos, prev.Length)];
      ChainFacts(bucket, pos, cur);
      if val == 0 {
        return None;
      }
      var p := val - 1;
      if p > pos {
        return None;
      }
      if cur - p > prev.Length - 1 {
        return None;
      }
      return Some(p);
    }

    /** A slot holds the predecessor of `pos`, or something too new or too old to be returned. */
    lemma ChainFacts(bucket: nat, pos: nat, cur: nat)
      requires Valid() && prev.Length > 0
      requires Entry(bucket, pos) in history
      requires forall e :: e in history ==> e.pos <= cur
      ensures var v := SlotContent(history, prev.Length, SlotOf(pos, prev.Length));
              && (v.Some? ==> v.value <= cur)
              && (v == LatestBefore(history, bucket, pos) || pos + prev.Length <= cur)
    {
      var e := Entry(bucket, pos);
      LatestInSlotIsLatest(history, prev.Length, e);
      var l := LatestInSlot(history, prev.Length, SlotOf(pos, prev.Length)).value;
      if l != e {
        SlotDistance(pos, l.pos, prev.Length);
      }
    }
  }

  // ---------------------------------------------------------------------
  // The source table
  // ---------------------------------------------------------------------

  class LargeTable {
    const cfg: HashCfg
    const table: array<nat>

    ghost predicate Valid()
      reads this, table
    {
      ValidCfg(cfg) && table.Length == cfg.size
    }

    constructor (cfg: HashCfg)
      requires ValidCfg(cfg)
      ensures Valid() && this.cfg == cfg && fresh(table)
      ensures forall b :: 0 <= b < table.Length ==> table[b] == 0
    {
      this.cfg := cfg;
      table := new nat[cfg.size](_ => 0);
    }

    method Lookup(cksum: nat) returns (r: Option<nat>)
      requires Valid()
      ensures Stored(r) == table[cfg.bucket(cksum)]
    {
      var val := table[cfg.bucket(cksum)];
      if val != 0 {
        return Some(val - 1);
      }
      return None;
    }

    method Insert(cksum: nat, pos: nat)
      requires Valid()
      modifies table
      ensures Valid()
      ensures table[..] == old(table[..])[cfg.bucket(cksum) := pos + 1]
    {
      table[cfg.bucket(cksum)] := pos + 1;
    }
  }

  /** The first indexed source position, from `pos` on in steps, whose checksum falls into a bucket. */
  function FirstInBucket(src: Bytes, look: nat, step: nat, pos: nat, single: Byte -> nat, cfg: HashCfg, bucket: nat)
    : (r: Option<nat>)
    requires step > 0
    ensures r.Some? ==> pos <= r.value && r.value + look <= |src|
    decreases |src| + step - pos
  {
    if pos + look > |src| then None
    else if cfg.bucket(Checksum(src[pos..pos + look], single)) == bucket then Some(pos)
    else FirstInBucket(src, look, step, pos + step, single, cfg, bucket)
  }

  /** What a lookup by linear scan over all indexed positions finds. */
  function ScanSource(src: Bytes, look: nat, step: nat, single: Byte -> nat, cfg: HashCfg, bucket: nat): Option<nat>
    requires step > 0
  {
    if |src| < look then None
    else FirstInBucket(src, look, step, (|src| - look) % step, single, cfg, bucket)
  }

  /** An indexed source position whose checksum falls into a bucket. */
  ghost predicate Indexed(src: Bytes, look: nat, step: nat, single: Byte -> nat, cfg: HashCfg, bucket: nat, p: nat)
    requires step > 0
  {
    && p + look <= |src| && p % step == (|src| - look) % step
    && cfg.bucket(Checksum(src[p..p + look], single)) == bucket
  }

  lemma {:induction false} FirstInBucketLeast(src: Bytes, look: nat, step: nat, pos: nat, single: Byte -> nat,
                                              cfg: HashCfg, bucket: nat, p: nat)
    requires step > 0 && look <= |src| && pos % step == (|src| - look) % step
    ensures FirstInBucket(src, look, step, pos, single, cfg, bucket) == Some(p)
       <==> && pos <= p && Indexed(src, look, step, single, cfg, bucket, p)
            && forall q :: pos <= q && Indexed(src, look, step, single, cfg, bucket, q) ==> p <= q
    decreases |src| + step - pos
  {
    hide Checksum;
    if pos + look <= |src| && !Indexed(src, look, step, single, cfg, bucket, pos) {
      StepMod(pos + step, step);
      FirstInBucketLeast(src, look, step, pos + step, single, cfg, bucket, p);
      forall q | pos <= q && Indexed(src, look, step, single, cfg, bucket, q)
        ensures pos + step <= q
      {
        SlotDistance(pos, q, step);
      }
    }
  }

  /** The scan finds the least indexed position of the bucket, if there is one. */
  lemma ScanSourceLeast(src: Bytes, look: nat, step: nat, single: Byte -> nat, cfg: HashCfg, bucket: nat, p: nat)
    requires step > 0
    ensures ScanSource(src, look, step, single, cfg, bucket) == Some(p)
       <==> && Indexed(src, look, step, single, cfg, bucket, p)
            && forall q: nat :: Indexed(src, look, step, single, cfg, bucket, q) ==> p <= q
  {
    hide Checksum, FirstInBucket;
    if look <= |src| {
      var first := (|src| - look) % step;
      SmallMod(first, step);
      forall q: nat | Indexed(src, look, step, single, cfg, bucket, q)
        ensures first <= q
      {
        if q < step {
          SmallMod(q, step);
        }
      }
      FirstInBucketLeast(src, look, step, first, single, cfg, bucket, p);
    }
  }

  /** What a bucket holds after indexing: what the scan finds, else what was there. */
  function Refilled(found: Option<nat>, before: nat): nat {
    if found.Some? then Stored(found) else before
  }

  /** Every bucket holds what the scan from `from` on finds, else what was there before. */
  ghost predicate FilledFrom(table: seq<nat>, before: seq<nat>, src: Bytes, look: nat, step: nat, from: nat,
                             single: Byte -> nat, cfg: HashCfg)
    requires step > 0
  {
    && |table| == |before|
    && forall b :: 0 <= b < |table| ==>
         table[b] == Refilled(FirstInBucket(src, look, step, from, single, cfg, b), before[b])
  }

  lemma FillNothing(table: seq<nat>, src: Bytes, look: nat, step: nat, from: nat, single: Byte -> nat, cfg: HashCfg)
    requires step > 0 && from + look > |src|
    ensures FilledFrom(table, table, src, look, step, from, single, cfg)
  {
  }

  lemma FillOne(table: seq<nat>, before: seq<nat>, src: Bytes, look: nat, step: nat, pos: nat,
                single: Byte -> nat, cfg: HashCfg)
    requires step > 0 && pos + look <= |src| && ValidCfg(cfg) && |table| == cfg.size
    requires FilledFrom(table, before, src, look, step, pos + step, single, cfg)
    ensures FilledFrom(table[cfg.bucket(Checksum(src[pos..pos + look], single)) := pos + 1], before,
                       src, look, step, pos, single, cfg)
  {
    hide Checksum;
  }

  /** Indexing from the back leaves in every bucket what a linear scan from the front finds. */
  method IndexSource(t: LargeTable, src: Bytes, look: nat, step: nat, single: Byte -> nat)
    requires t.Valid() && step > 0
    modifies t.table
    ensures t.Valid()
    ensures forall b :: 0 <= b < t.table.Length ==>
              t.table[b] == Refilled(ScanSource(src, look, step, single, t.cfg, b), old(t.table[b]))
  {
    if |src| < look {
      return;
    }
    hide Checksum, FirstInBucket;
    var pos := |src| - look;
    FillNothing(t.table[..], src, look, step, pos + step, single, t.cfg);
    while true
      invariant t.Valid() && 0 <= pos && pos + look <= |src|
      invariant pos % step == (|src| - look) % step
      invariant FilledFrom(t.table[..], old(t.table[..]), src, look, step, pos + step, single, t.cfg)
      decreases pos
    {
      assert src[pos..][..look] == src[pos..pos + look];
      var cksum := ComputeChecksum(src[pos..], look, single);
      FillOne(t.table[..], old(t.table[..]), src, look, step, pos, single, t.cfg);
      t.Insert(cksum, pos);
      if pos < step {
        SmallMod(pos, step);
        break;
      }
      StepMod(pos, step);
      pos := pos - step;
    }
    assert FilledFrom(t.table[..], old(t.table[..]), src, look, step, (|src| - look) % step, single, t.cfg);
  }
}
