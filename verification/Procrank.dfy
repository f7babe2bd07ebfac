/** procrank's accounting: what each mapped page adds to a process's memory figures, and how the shares add up. */
module Procrank {
  import opened Json
  import opened Arithmetic

  datatype Usage = Usage(vss: nat, rss: nat, pss: nat, uss: nat, swap: nat)

  const NOTHING: Usage := Usage(0, 0, 0, 0, 0)

  function Plus(a: Usage, b: Usage): Usage {
    Usage(a.vss + b.vss, a.rss + b.rss, a.pss + b.pss, a.uss + b.uss, a.swap + b.swap)
  }

  /** The page size, and what /proc/kpagecount and /proc/kpageflags tell of a frame; None is a read error. */
  datatype Kernel = Kernel(pageSize: nat, count: nat -> Option<nat>, flags: nat -> Option<bv64>)

  /** Which pages count: those whose flags under the mask are as required; a zero mask takes them all. */
  datatype Filter = Filter(mask: bv64, required: bv64)

  const ALL: Filter := Filter(0, 0)

  // ---------------------------------------------------------------- one entry of a pagemap

  predicate Present(entry: nat) {
    entry / 0x8000_0000_0000_0000 % 2 == 1
  }

  predicate Swapped(entry: nat) {
    entry / 0x4000_0000_0000_0000 % 2 == 1
  }

  function Frame(entry: nat): nat {
    entry % 0x80_0000_0000_0000
  }

  /** A page in memory, held by count mappings. */
  function InMemory(pageSize: nat, count: nat): Usage {
    Usage(pageSize, if count >= 1 then pageSize else 0, if count >= 1 then pageSize / count else 0,
          if count == 1 then pageSize else 0, 0)
  }

  predicate Matches(flags: bv64, filter: Filter) {
    flags & filter.mask == filter.required
  }

  /** An entry counts as swapped only if it is marked present as well. */
  function EntryUsage(ker: Kernel, entry: nat, filter: Filter): Option<Usage> {
    var unused := Some(NOTHING.(vss := ker.pageSize));
    if !Present(entry) then unused
    else if Swapped(entry) then Some(NOTHING.(vss := ker.pageSize, swap := ker.pageSize))
    else
      var flags := if filter.mask == 0 then Some(filter.required) else ker.flags(Frame(entry));
      if flags == None then None
      else if filter.mask != 0 && !Matches(flags.value, filter) then unused
      else match ker.count(Frame(entry))
        case None => None
        case Some(count) => Some(InMemory(ker.pageSize, count))
  }

  /** The sum over a map's entries; the first error spoils it. */
  function MapUsage(ker: Kernel, entries: seq<nat>, filter: Filter): Option<Usage> {
    if entries == [] then Some(NOTHING)
    else
      var last := |entries| - 1;
      match MapUsage(ker, entries[..last], filter)
      case None => None
      case Some(u) => (match EntryUsage(ker, entries[last], filter) case None => None case Some(v) => Some(Plus(u, v)))
  }

  function ProcessUsage(ker: Kernel, maps: seq<seq<nat>>, filter: Filter): Option<Usage> {
    if maps == [] then Some(NOTHING)
    else
      var last := |maps| - 1;
      match ProcessUsage(ker, maps[..last], filter)
      case None => None
      case Some(u) => (match MapUsage(ker, maps[last], filter) case None => None case Some(v) => Some(Plus(u, v)))
  }

  // ---------------------------------------------------------------- the accumulators

  class MemUsage {
    var vss: nat
    var rss: nat
    var pss: nat
    var uss: nat
    var swap: nat

    function Value(): Usage
      reads this
    {
      Usage(vss, rss, pss, uss, swap)
    }

    constructor ()
      ensures Value() == NOTHING
    {
      vss, rss, pss, uss, swap := 0, 0, 0, 0, 0;
    }

    /** pm_memusage_zero */
    method Zero()
      modifies this
      ensures Value() == NOTHING
    {
      vss, rss, pss, uss, swap := 0, 0, 0, 0, 0;
    }

    /** pm_memusage_add */
    method Add(b: MemUsage)
      modifies this
      ensures Value() == Plus(old(Value()), old(b.Value()))
    {
      vss := vss + b.vss;
      rss := rss + b.rss;
      pss := pss + b.pss;
      uss := uss + b.uss;
      swap := swap + b.swap;
    }

    /** The memcpy of a finished accumulator. */
    method Copy(b: MemUsage)
      modifies this
      ensures Value() == old(b.Value())
    {
      vss, rss, pss, uss, swap := b.vss, b.rss, b.pss, b.uss, b.swap;
    }
  }

  /** The body of the loop over a map's entries. */
  method AddEntry(ker: Kernel, entry: nat, usage: MemUsage, filter: Filter) returns (ok: bool)
    modifies usage
    ensures ok <==> EntryUsage(ker, entry, filter).Some?
    ensures ok ==> usage.Value() == Plus(old(usage.Value()), EntryUsage(ker, entry, filter).value)
  {
    hide Present, Swapped, Frame, Matches;
    ok := true;
    usage.vss := usage.vss + ker.pageSize;
    if !Present(entry) { return; }
    if !Swapped(entry) {
      if filter.mask != 0 {
        var flags := ker.flags(Frame(entry));
        if flags == None { return false; }
        if !Matches(flags.value, filter) { return; }
      }
      var count := ker.count(Frame(entry));
      if count == None { return false; }
      usage.rss := usage.rss + if count.value >= 1 then ker.pageSize else 0;
      usage.pss := usage.pss + if count.value >= 1 then ker.pageSize / count.value else 0;
      usage.uss := usage.uss + if count.value == 1 then ker.pageSize else 0;
    } else {
      usage.swap := usage.swap + ker.pageSize;
    }
  }

  /** pm_map_usage_flags: on an error the result is left alone. */
  method MapUsageFlags(ker: Kernel, entries: seq<nat>, usageOut: MemUsage, filter: Filter) returns (ok: bool)
    modifies usageOut
    ensures ok <==> MapUsage(ker, entries, filter).Some?
    ensures usageOut.Value() == if ok then MapUsage(ker, entries, filter).value else old(usageOut.Value())
  {
    hide EntryUsage, MapUsage, Plus;
    NoMaps(ker, filter);
    assert entries[..0] == [];
    var usage := new MemUsage();
    for i := 0 to |entries|
      invariant MapUsage(ker, entries[..i], filter) == Some(usage.Value())
      invariant usageOut.Value() == old(usageOut.Value()) && fresh(usage)
    {
      MapStep(ker, entries, i, filter);
      var good := AddEntry(ker, entries[i], usage, filter);
      if !good { MapError(ker, entries, i + 1, filter); return false; }
    }
    assert entries[..|entries|] == entries;
    usageOut.Copy(usage);
    ok := true;
  }

  lemma MapStep(ker: Kernel, entries: seq<nat>, i: nat, filter: Filter)
    requires i < |entries| && MapUsage(ker, entries[..i], filter).Some?
    ensures var e := EntryUsage(ker, entries[i], filter);
            MapUsage(ker, entries[..i + 1], filter) ==
              if e == None then None else Some(Plus(MapUsage(ker, entries[..i], filter).value, e.value))
  {
    hide EntryUsage;
    assert entries[..i + 1][..i] == entries[..i];
  }

  /** An error is for good. */
  lemma {:induction false} MapError(ker: Kernel, entries: seq<nat>, i: nat, filter: Filter)
    requires i <= |entries| && MapUsage(ker, entries[..i], filter) == None
    ensures MapUsage(ker, entries, filter) == None
    decreases |entries| - i
  {
    hide EntryUsage;
    if i == |entries| {
      assert entries[..i] == entries;
    } else {
      assert entries[..i + 1][..i] == entries[..i];
      MapError(ker, entries, i + 1, filter);
    }
  }

  lemma {:induction false} ProcessError(ker: Kernel, maps: seq<seq<nat>>, i: nat, filter: Filter)
    requires i <= |maps| && ProcessUsage(ker, maps[..i], filter) == None
    ensures ProcessUsage(ker, maps, filter) == None
    decreases |maps| - i
  {
    if i == |maps| {
      assert maps[..i] == maps;
    } else {
      assert maps[..i + 1][..i] == maps[..i];
      ProcessError(ker, maps, i + 1, filter);
    }
  }

  lemma ProcessStep(ker: Kernel, maps: seq<seq<nat>>, i: nat, filter: Filter)
    requires i < |maps| && ProcessUsage(ker, maps[..i], filter).Some?
    ensures var u := MapUsage(ker, maps[i], filter);
            ProcessUsage(ker, maps[..i + 1], filter) ==
              if u == None then None else Some(Plus(ProcessUsage(ker, maps[..i], filter).value, u.value))
  {
    hide MapUsage;
    assert maps[..i + 1][..i] == maps[..i];
  }

  lemma NoMaps(ker: Kernel, filter: Filter)
    ensures ProcessUsage(ker, [], filter) == Some(NOTHING) && MapUsage(ker, [], filter) == Some(NOTHING)
  {
  }

  /** pm_process_usage_flags */
  method ProcessUsageFlags(ker: Kernel, maps: seq<seq<nat>>, usageOut: MemUsage, filter: Filter) returns (ok: bool)
    modifies usageOut
    ensures ok <==> ProcessUsage(ker, maps, filter).Some?
    ensures usageOut.Value() == if ok then ProcessUsage(ker, maps, filter).value else old(usageOut.Value())
  {
    hide MapUsage, ProcessUsage, Plus;
    NoMaps(ker, filter);
    assert maps[..0] == [];
    var usage := new MemUsage();
    var mapUsage := new MemUsage();
    for i := 0 to |maps|
      invariant ProcessUsage(ker, maps[..i], filter) == Some(usage.Value())
      invariant usageOut.Value() == old(usageOut.Value()) && fresh(usage) && fresh(mapUsage) && usage != mapUsage
    {
      ProcessStep(ker, maps, i, filter);
      var good := MapUsageFlags(ker, maps[i], mapUsage, filter);
      if !good { ProcessError(ker, maps, i + 1, filter); return false; }
      usage.Add(mapUsage);
    }
    assert maps[..|maps|] == maps;
    usageOut.Copy(usage);
    ok := true;
  }

  // ---------------------------------------------------------------- bounds

  predicate Ordered(u: Usage) {
    u.uss <= u.pss <= u.rss && u.rss + u.swap <= u.vss
  }

  lemma ShareBounds(pageSize: nat, count: nat)
    requires count >= 1
    ensures pageSize / count <= pageSize && count * (pageSize / count) + pageSize % count == pageSize
    ensures count == 1 ==> pageSize / count == pageSize
  {
    QuotientBound(pageSize, count);
  }

  lemma EntryOrdered(ker: Kernel, entry: nat, filter: Filter)
    requires EntryUsage(ker, entry, filter).Some?
    ensures Ordered(EntryUsage(ker, entry, filter).value) && EntryUsage(ker, entry, filter).value.vss == ker.pageSize
  {
    hide Present, Swapped, Frame;
    var count := ker.count(Frame(entry));
    if count.Some? && count.value >= 1 { ShareBounds(ker.pageSize, count.value); }
  }

  lemma {:induction false} MapOrdered(ker: Kernel, entries: seq<nat>, filter: Filter)
    requires MapUsage(ker, entries, filter).Some?
    ensures Ordered(MapUsage(ker, entries, filter).value) && MapUsage(ker, entries, filter).value.vss == ker.pageSize * |entries|
  {
    hide EntryUsage, Ordered;
    if entries == [] {
      NothingOrdered(ker.pageSize);
    } else {
      var last := |entries| - 1;
      MapOrdered(ker, entries[..last], filter);
      EntryOrdered(ker, entries[last], filter);
      OrderedSum(MapUsage(ker, entries[..last], filter).value, EntryUsage(ker, entries[last], filter).value);
      OneMore(ker.pageSize, last);
    }
  }

  lemma NothingOrdered(pageSize: nat)
    ensures Ordered(NOTHING) && pageSize * 0 == 0
  {
  }

  lemma OrderedSum(u: Usage, v: Usage)
    requires Ordered(u) && Ordered(v)
    ensures Ordered(Plus(u, v)) && Plus(u, v).vss == u.vss + v.vss
  {
  }

  /** For every process: unique <= proportional <= resident, and resident and swapped together are within the mapped size. */
  lemma {:induction false} ProcessOrdered(ker: Kernel, maps: seq<seq<nat>>, filter: Filter)
    requires ProcessUsage(ker, maps, filter).Some?
    ensures Ordered(ProcessUsage(ker, maps, filter).value)
  {
    hide MapUsage, Ordered;
    if maps == [] {
      NothingOrdered(ker.pageSize);
    } else {
      var last := |maps| - 1;
      ProcessOrdered(ker, maps[..last], filter);
      MapOrdered(ker, maps[last], filter);
      OrderedSum(ProcessUsage(ker, maps[..last], filter).value, MapUsage(ker, maps[last], filter).value);
    }
  }

  // ---------------------------------------------------------------- the figures as numbers of entries

  /** Bit k of an entry. */
  predicate IsSet(entry: nat, k: nat) {
    entry / Power2(k) % 2 == 1
  }

  /** Bits 0 to 54. */
  function FrameNumber(entry: nat): nat {
    entry % Power2(55)
  }

  lemma PowersOf2()
    ensures Power2(55) == 0x80_0000_0000_0000 && Power2(62) == 0x4000_0000_0000_0000 && Power2(63) == 0x8000_0000_0000_0000
  {
    hide Power2;
    SmallPowers();
    Together(8, 8, 0x100, 0x100);
    Together(16, 16, 0x1_0000, 0x1_0000);
    Together(32, 16, 0x1_0000_0000, 0x1_0000);
    Together(48, 7, 0x1_0000_0000_0000, 0x80);
    Together(48, 14, 0x1_0000_0000_0000, 0x4000);
    Together(48, 15, 0x1_0000_0000_0000, 0x8000);
  }

  lemma Together(a: nat, b: nat, x: nat, y: nat)
    requires Power2(a) == x && Power2(b) == y
    ensures Power2(a + b) == x * y
  {
    PowerSum(a, b);
  }

  lemma SmallPowers()
    ensures Power2(7) == 0x80 && Power2(8) == 0x100 && Power2(14) == 0x4000 && Power2(15) == 0x8000
  {
    assert Power2(4) == 16;
    assert Power2(8) == 256;
    assert Power2(12) == 4096;
  }

  lemma {:induction false} PowerSum(a: nat, b: nat)
    ensures Power2(a + b) == Power2(a) * Power2(b)
    decreases b
  {
    NextPower(a + b);
    NextPower(b);
    hide Power2;
    if b > 0 {
      PowerSum(a, b - 1);
      Twice(Power2(a), Power2(b - 1));
    } else {
      assert Power2(a) * 1 == Power2(a);
    }
  }

  lemma NextPower(n: nat)
    ensures Power2(n) == if n == 0 then 1 else 2 * Power2(n - 1)
  {
  }

  lemma Twice(a: nat, b: nat)
    ensures a * (2 * b) == 2 * (a * b)
  {
  }

  /** Bit 63 says that a page is present, bit 62 that it is swapped; the frame is bits 0 to 54. */
  lemma EntryBits(entry: nat)
    ensures (Present(entry) <==> IsSet(entry, 63)) && (Swapped(entry) <==> IsSet(entry, 62)) && Frame(entry) == FrameNumber(entry)
  {
    PowersOf2();
    hide Power2;
  }

  /** The page's flags are as asked for. */
  predicate Taken(ker: Kernel, frame: nat, filter: Filter) {
    filter.mask == 0 || (ker.flags(frame).Some? && ker.flags(frame).value & filter.mask == filter.required)
  }

  /** A page that is present, not swapped, and taken; c holders have it. */
  predicate Held(ker: Kernel, entry: nat, filter: Filter, c: nat) {
    && IsSet(entry, 63) && !IsSet(entry, 62)
    && Taken(ker, FrameNumber(entry), filter) && ker.count(FrameNumber(entry)) == Some(c)
  }

  predicate Resident(ker: Kernel, entry: nat, filter: Filter) {
    var c := ker.count(FrameNumber(entry));
    c.Some? && c.value >= 1 && Held(ker, entry, filter, c.value)
  }

  /** A page divided among c holders; the rest of the division is lost. */
  function Divided(size: nat, c: nat): nat
    requires c >= 1
  {
    QuotientBound(size, c);
    size / c
  }

  /** What a page adds to the proportional share. */
  function Portion(ker: Kernel, entry: nat, filter: Filter): nat {
    if Resident(ker, entry, filter) then Divided(ker.pageSize, ker.count(FrameNumber(entry)).value) else 0
  }

  /** The entries that each of three figures counts. */
  datatype Pages = ResidentPages | OwnPages | SwappedPages

  predicate IsOne(ker: Kernel, entry: nat, filter: Filter, pages: Pages) {
    match pages
    case ResidentPages => Resident(ker, entry, filter)
    case OwnPages => Held(ker, entry, filter, 1)
    case SwappedPages => IsSet(entry, 63) && IsSet(entry, 62)
  }

  function Count(ker: Kernel, entries: seq<nat>, filter: Filter, pages: Pages): nat {
    if entries == [] then 0
    else
      var last := |entries| - 1;
      Count(ker, entries[..last], filter, pages) + if IsOne(ker, entries[last], filter, pages) then 1 else 0
  }

  function Portions(ker: Kernel, entries: seq<nat>, filter: Filter): nat {
    if entries == [] then 0
    else Portions(ker, entries[..|entries| - 1], filter) + Portion(ker, entries[|entries| - 1], filter)
  }

  /** The figures of some entries, told without the loop that adds them up. */
  predicate AreFigures(ker: Kernel, entries: seq<nat>, filter: Filter, u: Usage) {
    && u.vss == ker.pageSize * |entries|
    && u.rss == ker.pageSize * Count(ker, entries, filter, ResidentPages)
    && u.uss == ker.pageSize * Count(ker, entries, filter, OwnPages)
    && u.swap == ker.pageSize * Count(ker, entries, filter, SwappedPages)
    && u.pss == Portions(ker, entries, filter)
  }

  lemma InMemoryIs(size: nat, c: nat)
    ensures InMemory(size, c) ==
            Usage(size, if c >= 1 then size else 0, if c >= 1 then Divided(size, c) else 0, if c == 1 then size else 0, 0)
  {
  }

  /** What an entry that is in memory adds, if its flags and its count can be read. */
  lemma HeldIs(ker: Kernel, entry: nat, filter: Filter)
    requires IsSet(entry, 63) && !IsSet(entry, 62) && EntryUsage(ker, entry, filter).Some?
    ensures var frame := FrameNumber(entry);
            if Taken(ker, frame, filter) then
              ker.count(frame).Some? && EntryUsage(ker, entry, filter).value == InMemory(ker.pageSize, ker.count(frame).value)
            else EntryUsage(ker, entry, filter).value == NOTHING.(vss := ker.pageSize)
  {
    EntryBits(entry);
    hide Present, Swapped, Frame, IsSet, FrameNumber, InMemory;
  }

  lemma OtherIs(ker: Kernel, entry: nat, filter: Filter)
    requires EntryUsage(ker, entry, filter).Some?
    ensures !IsSet(entry, 63) ==> EntryUsage(ker, entry, filter).value == Usage(ker.pageSize, 0, 0, 0, 0)
    ensures IsSet(entry, 63) && IsSet(entry, 62) ==> EntryUsage(ker, entry, filter).value == Usage(ker.pageSize, 0, 0, 0, ker.pageSize)
  {
    EntryBits(entry);
    hide Present, Swapped, Frame, IsSet, FrameNumber, InMemory;
  }

  /** One entry, by its bits. */
  lemma EntryFigures(ker: Kernel, entry: nat, filter: Filter)
    requires EntryUsage(ker, entry, filter).Some?
    ensures var u, size := EntryUsage(ker, entry, filter).value, ker.pageSize;
            && u.vss == size && u.rss == (if Resident(ker, entry, filter) then size else 0)
            && u.uss == (if Held(ker, entry, filter, 1) then size else 0)
            && u.swap == (if IsSet(entry, 63) && IsSet(entry, 62) then size else 0) && u.pss == Portion(ker, entry, filter)
  {
    hide IsSet, FrameNumber, EntryUsage, InMemory, Taken, Divided;
    OtherIs(ker, entry, filter);
    if IsSet(entry, 63) && !IsSet(entry, 62) {
      HeldIs(ker, entry, filter);
      if Taken(ker, FrameNumber(entry), filter) { InMemoryIs(ker.pageSize, ker.count(FrameNumber(entry)).value); }
    }
  }

  lemma OneCounted(ker: Kernel, entries: seq<nat>, filter: Filter, pages: Pages)
    requires entries != []
    ensures var last := |entries| - 1;
            ker.pageSize * Count(ker, entries, filter, pages) ==
            ker.pageSize * Count(ker, entries[..last], filter, pages) + if IsOne(ker, entries[last], filter, pages) then ker.pageSize else 0
  {
    hide IsOne;
    OneMore(ker.pageSize, Count(ker, entries[..|entries| - 1], filter, pages));
  }

  lemma FiguresOfNone(ker: Kernel, filter: Filter)
    ensures AreFigures(ker, [], filter, NOTHING)
  {
  }

  /** One entry more. */
  lemma FiguresGrow(ker: Kernel, entries: seq<nat>, filter: Filter, u: Usage, v: Usage)
    requires entries != [] && AreFigures(ker, entries[..|entries| - 1], filter, u)
    requires EntryUsage(ker, entries[|entries| - 1], filter) == Some(v)
    ensures AreFigures(ker, entries, filter, Plus(u, v))
  {
    hide IsSet, Held, Resident, Portion, EntryUsage, Count;
    EntryFigures(ker, entries[|entries| - 1], filter);
    OneMore(ker.pageSize, |entries| - 1);
    OneCounted(ker, entries, filter, ResidentPages);
    OneCounted(ker, entries, filter, OwnPages);
    OneCounted(ker, entries, filter, SwappedPages);
  }

  /**
   * RSS is a page for each entry of a taken page that someone holds, USS one for each that has one holder only,
   * swap one for each swapped entry, and PSS the pages divided among their holders.
   */
  lemma {:induction false} MapFigures(ker: Kernel, entries: seq<nat>, filter: Filter)
    requires MapUsage(ker, entries, filter).Some?
    ensures AreFigures(ker, entries, filter, MapUsage(ker, entries, filter).value)
  {
    hide EntryUsage, AreFigures, Plus;
    if entries == [] {
      FiguresOfNone(ker, filter);
    } else {
      var last := |entries| - 1;
      MapFigures(ker, entries[..last], filter);
      FiguresGrow(ker, entries, filter, MapUsage(ker, entries[..last], filter).value, EntryUsage(ker, entries[last], filter).value);
    }
  }

  lemma {:induction false} CountJoined(ker: Kernel, a: seq<nat>, b: seq<nat>, filter: Filter, pages: Pages)
    ensures Count(ker, a + b, filter, pages) == Count(ker, a, filter, pages) + Count(ker, b, filter, pages)
  {
    hide IsOne;
    if b == [] {
      assert a + b == a;
    } else {
      assert (a + b)[..|a + b| - 1] == a + b[..|b| - 1];
      CountJoined(ker, a, b[..|b| - 1], filter, pages);
    }
  }

  lemma {:induction false} PortionsJoined(ker: Kernel, a: seq<nat>, b: seq<nat>, filter: Filter)
    ensures Portions(ker, a + b, filter) == Portions(ker, a, filter) + Portions(ker, b, filter)
  {
    hide Portion;
    if b == [] {
      assert a + b == a;
    } else {
      assert (a + b)[..|a + b| - 1] == a + b[..|b| - 1];
      PortionsJoined(ker, a, b[..|b| - 1], filter);
    }
  }

  /** All entries of all maps. */
  function Flat(maps: seq<seq<nat>>): seq<nat> {
    if maps == [] then [] else Flat(maps[..|maps| - 1]) + maps[|maps| - 1]
  }

  lemma Product(a: nat, b: nat, c: nat)
    ensures a * (b + c) == a * b + a * c
  {
  }

  lemma FiguresJoined(ker: Kernel, a: seq<nat>, b: seq<nat>, filter: Filter, u: Usage, v: Usage)
    requires AreFigures(ker, a, filter, u) && AreFigures(ker, b, filter, v)
    ensures AreFigures(ker, a + b, filter, Plus(u, v))
  {
    hide Count, Portions;
    Product(ker.pageSize, |a|, |b|);
    forall pages ensures ker.pageSize * Count(ker, a + b, filter, pages) ==
                         ker.pageSize * Count(ker, a, filter, pages) + ker.pageSize * Count(ker, b, filter, pages)
    {
      CountJoined(ker, a, b, filter, pages);
      Product(ker.pageSize, Count(ker, a, filter, pages), Count(ker, b, filter, pages));
    }
    PortionsJoined(ker, a, b, filter);
  }

  /** The same for a process, over all entries of its maps. */
  lemma {:induction false} ProcessFigures(ker: Kernel, maps: seq<seq<nat>>, filter: Filter)
    requires ProcessUsage(ker, maps, filter).Some?
    ensures AreFigures(ker, Flat(maps), filter, ProcessUsage(ker, maps, filter).value)
  {
    hide MapUsage, AreFigures, Plus;
    if maps == [] {
      FiguresOfNone(ker, filter);
    } else {
      var last := |maps| - 1;
      ProcessFigures(ker, maps[..last], filter);
      MapFigures(ker, maps[last], filter);
      FiguresJoined(ker, Flat(maps[..last]), maps[last], filter, ProcessUsage(ker, maps[..last], filter).value,
                    MapUsage(ker, maps[last], filter).value);
    }
  }

  /** What cannot be told of an entry in memory: its flags, if they are asked for, or how many hold the page. */
  predicate Unreadable(ker: Kernel, entry: nat, filter: Filter) {
    && IsSet(entry, 63) && !IsSet(entry, 62)
    && var frame := FrameNumber(entry);
       (filter.mask != 0 && ker.flags(frame) == None) || (Taken(ker, frame, filter) && ker.count(frame) == None)
  }

  lemma UnreadableIs(ker: Kernel, entry: nat, filter: Filter)
    ensures EntryUsage(ker, entry, filter) == None <==> Unreadable(ker, entry, filter)
  {
    EntryBits(entry);
    hide Present, Swapped, Frame, IsSet, FrameNumber, InMemory;
  }

  /** There are no figures exactly if something of some entry cannot be told. */
  lemma {:induction false} MapUnreadable(ker: Kernel, entries: seq<nat>, filter: Filter)
    ensures MapUsage(ker, entries, filter) == None <==> exists i :: 0 <= i < |entries| && Unreadable(ker, entries[i], filter)
  {
    hide EntryUsage, Unreadable, Plus;
    if entries != [] {
      var last := |entries| - 1;
      MapUnreadable(ker, entries[..last], filter);
      UnreadableIs(ker, entries[last], filter);
      forall i | 0 <= i < last ensures entries[..last][i] == entries[i] { }
    }
  }

  // ---------------------------------------------------------------- conservation

  /** The frames that the entries name as being in memory, in order. */
  function InMemoryFrames(entries: seq<nat>): seq<nat> {
    if entries == [] then []
    else
      var last := |entries| - 1;
      InMemoryFrames(entries[..last]) + if Present(entries[last]) && !Swapped(entries[last]) then [Frame(entries[last])] else []
  }

  function ProcessFrames(maps: seq<seq<nat>>): seq<nat> {
    if maps == [] then [] else ProcessFrames(maps[..|maps| - 1]) + InMemoryFrames(maps[|maps| - 1])
  }

  /** The frames named by all processes. */
  function SystemFrames(processes: seq<seq<seq<nat>>>): seq<nat> {
    if processes == [] then [] else SystemFrames(processes[..|processes| - 1]) + ProcessFrames(processes[|processes| - 1])
  }

  /** The proportional shares of all processes together; None if one cannot be had. */
  function SystemPss(ker: Kernel, processes: seq<seq<seq<nat>>>): Option<nat> {
    if processes == [] then Some(0)
    else match SystemPss(ker, processes[..|processes| - 1])
      case None => None
      case Some(n) => (match ProcessUsage(ker, processes[|processes| - 1], ALL) case None => None case Some(u) => Some(n + u.pss))
  }

  function Share(ker: Kernel, frame: nat): nat {
    match ker.count(frame)
    case Some(count) => if count >= 1 then ker.pageSize / count else 0
    case None => 0
  }

  function Shares(ker: Kernel, frames: seq<nat>): nat {
    if frames == [] then 0 else Shares(ker, frames[..|frames| - 1]) + Share(ker, frames[|frames| - 1])
  }

  lemma {:induction false} SharesConcat(ker: Kernel, a: seq<nat>, b: seq<nat>)
    ensures Shares(ker, a + b) == Shares(ker, a) + Shares(ker, b)
  {
    if b == [] {
      assert a + b == a;
    } else {
      assert (a + b)[..|a + b| - 1] == a + b[..|b| - 1];
      SharesConcat(ker, a, b[..|b| - 1]);
    }
  }

  lemma EntryShare(ker: Kernel, entry: nat)
    requires EntryUsage(ker, entry, ALL).Some?
    ensures EntryUsage(ker, entry, ALL).value.pss == if Present(entry) && !Swapped(entry) then Share(ker, Frame(entry)) else 0
  {
    hide Present, Swapped, Frame;
  }

  lemma {:induction false} MapShares(ker: Kernel, entries: seq<nat>)
    requires MapUsage(ker, entries, ALL).Some?
    ensures MapUsage(ker, entries, ALL).value.pss == Shares(ker, InMemoryFrames(entries))
  {
    hide EntryUsage, Present, Swapped, Frame, Share;
    if entries != [] {
      var last := |entries| - 1;
      MapShares(ker, entries[..last]);
      EntryShare(ker, entries[last]);
      SharesConcat(ker, InMemoryFrames(entries[..last]), [Frame(entries[last])]);
      OneShare(ker, Frame(entries[last]));
      assert InMemoryFrames(entries[..last]) + [] == InMemoryFrames(entries[..last]);
    }
  }

  lemma OneShare(ker: Kernel, frame: nat)
    ensures Shares(ker, [frame]) == Share(ker, frame)
  {
    assert [frame][..0] == [];
  }

  lemma {:induction false} ProcessShares(ker: Kernel, maps: seq<seq<nat>>)
    requires ProcessUsage(ker, maps, ALL).Some?
    ensures ProcessUsage(ker, maps, ALL).value.pss == Shares(ker, ProcessFrames(maps))
  {
    hide MapUsage, Share, InMemoryFrames;
    if maps != [] {
      var last := |maps| - 1;
      ProcessShares(ker, maps[..last]);
      MapShares(ker, maps[last]);
      SharesConcat(ker, ProcessFrames(maps[..last]), InMemoryFrames(maps[last]));
    }
  }

  lemma {:induction false} SystemShares(ker: Kernel, processes: seq<seq<seq<nat>>>)
    requires SystemPss(ker, processes).Some?
    ensures SystemPss(ker, processes).value == Shares(ker, SystemFrames(processes))
  {
    hide ProcessUsage, Share, ProcessFrames;
    if processes != [] {
      var last := |processes| - 1;
      SystemShares(ker, processes[..last]);
      ProcessShares(ker, processes[last]);
      SharesConcat(ker, SystemFrames(processes[..last]), ProcessFrames(processes[last]));
    }
  }

  function Occurrences(frames: seq<nat>, f: nat): nat {
    if frames == [] then 0 else Occurrences(frames[..|frames| - 1], f) + if frames[|frames| - 1] == f then 1 else 0
  }

  function Without(frames: seq<nat>, f: nat): seq<nat> {
    if frames == [] then []
    else
      var last := |frames| - 1;
      Without(frames[..last], f) + if frames[last] == f then [] else [frames[last]]
  }

  /** The kernel's count of every named frame is the number of entries that name it. */
  predicate Accurate(ker: Kernel, frames: seq<nat>) {
    forall f :: f in frames ==> ker.count(f) == Some(Occurrences(frames, f))
  }

  lemma {:induction false} OccurrencesWithout(frames: seq<nat>, f: nat, g: nat)
    ensures Occurrences(Without(frames, f), g) == if f == g then 0 else Occurrences(frames, g)
  {
    if frames != [] {
      var last := |frames| - 1;
      OccurrencesWithout(frames[..last], f, g);
      var before := Without(frames[..last], f);
      assert before + [] == before && (before + [frames[last]])[..|before|] == before;
    }
  }

  lemma {:induction false} InWithout(frames: seq<nat>, f: nat, g: nat)
    ensures g in Without(frames, f) <==> g in frames && g != f
    ensures g in frames <==> Occurrences(frames, g) > 0
  {
    if frames != [] {
      var last := |frames| - 1;
      InWithout(frames[..last], f, g);
      assert frames == frames[..last] + [frames[last]];
    }
  }

  lemma {:induction false} WithoutLength(frames: seq<nat>, f: nat)
    ensures |frames| == Occurrences(frames, f) + |Without(frames, f)|
  {
    if frames != [] { WithoutLength(frames[..|frames| - 1], f); }
  }

  lemma Unfolded(ker: Kernel, frames: seq<nat>, f: nat)
    requires frames != []
    ensures var last := |frames| - 1;
            && Shares(ker, frames) == Shares(ker, frames[..last]) + Share(ker, frames[last])
            && Occurrences(frames, f) == Occurrences(frames[..last], f) + (if frames[last] == f then 1 else 0)
            && Without(frames, f) == if frames[last] == f then Without(frames[..last], f) else Without(frames[..last], f) + [frames[last]]
  {
    hide Share;
    assert Without(frames[..|frames| - 1], f) + [] == Without(frames[..|frames| - 1], f);
  }

  lemma {:induction false} WithoutSums(ker: Kernel, frames: seq<nat>, f: nat)
    ensures Shares(ker, frames) == Occurrences(frames, f) * Share(ker, f) + Shares(ker, Without(frames, f))
  {
    if frames != [] {
      hide *;
      var last := |frames| - 1;
      Unfolded(ker, frames, f);
      WithoutSums(ker, frames[..last], f);
      if frames[last] == f {
        OneMore(Share(ker, f), Occurrences(frames[..last], f));
      } else {
        SharesConcat(ker, Without(frames[..last], f), [frames[last]]);
        OneShare(ker, frames[last]);
      }
    }
  }

  function Distinct(frames: seq<nat>): set<nat> {
    set f | f in frames
  }

  lemma NoShares(ker: Kernel)
    ensures Shares(ker, []) == 0
  {
  }

  lemma OneMore(pageSize: nat, n: nat)
    ensures pageSize * (n + 1) == pageSize * n + pageSize == (n + 1) * pageSize
  {
  }

  /** Frame by frame: what is lost by dividing a page among n holders is less than n. */
  lemma {:induction false} SharesConserved(ker: Kernel, frames: seq<nat>)
    requires Accurate(ker, frames)
    ensures Shares(ker, frames) <= ker.pageSize * |Distinct(frames)|
    ensures ker.pageSize * |Distinct(frames)| <= Shares(ker, frames) + |frames|
    ensures frames != [] ==> ker.pageSize * |Distinct(frames)| < Shares(ker, frames) + |frames|
    decreases |frames|
  {
    hide Shares, Without, Occurrences;
    if frames == [] {
      assert Distinct(frames) == {};
      NoShares(ker);
    } else {
      var f := frames[0];
      var rest, n := Without(frames, f), Occurrences(frames, f);
      InWithout(frames, f, f);
      WithoutSums(ker, frames, f);
      WithoutLength(frames, f);
      forall g ensures g in rest <==> g in frames && g != f { InWithout(frames, f, g); }
      forall g | g in rest ensures ker.count(g) == Some(Occurrences(rest, g)) { OccurrencesWithout(frames, f, g); }
      assert Distinct(frames) == Distinct(rest) + {f} && f !in Distinct(rest);
      SharesConserved(ker, rest);
      ShareBounds(ker.pageSize, n);
      OneMore(ker.pageSize, |Distinct(rest)|);
    }
  }

  /**
   * If the kernel's counts are right, the proportional shares of all processes add up to no more than
   * the memory they hold, and fall short of it by less than the number of entries.
   */
  lemma Conservation(ker: Kernel, processes: seq<seq<seq<nat>>>)
    requires SystemPss(ker, processes).Some? && Accurate(ker, SystemFrames(processes))
    ensures var held, pss := ker.pageSize * |Distinct(SystemFrames(processes))|, SystemPss(ker, processes).value;
            && pss <= held
            && (if SystemFrames(processes) == [] then pss == held == 0 else held < pss + |SystemFrames(processes)|)
  {
    hide SystemFrames, SystemPss, Shares, Accurate;
    SystemShares(ker, processes);
    SharesConserved(ker, SystemFrames(processes));
    if SystemFrames(processes) == [] { assert Distinct(SystemFrames(processes)) == {}; }
  }
}
