/** The microcontroller object: allocation of RAM banks, linker sections, `build` and `validate`. */
module System {

  import opened MachineInts
  import opened PowersOfTwo
  import opened RamBank
  import opened LinkerSection

  datatype Bus = OneToM | NToM

  datatype Group = Group(start: int, size: int, n: nat, first: int)

  /** What a call did: return a value or raise. */
  datatype Outcome = Answer(value: bool) | Raised

  // ---------------------------------------------------------------- the banks an accepted call appends

  function AddrAfter(sizes: seq<int>, n: nat, addr: int): int
    requires n <= |sizes|
  {
    if n == 0 then addr else AddrAfter(sizes, n - 1, addr) + sizes[n - 1] * 1024
  }

  /** Continuous banks, one after the other. */
  function ContBanks(sizes: seq<int>, n: nat, addr: int, idx: int): (r: seq<Bank>)
    requires n <= |sizes|
    ensures |r| == n
  {
    if n == 0 then []
    else ContBanks(sizes, n - 1, addr, idx) + [Bank(sizes[n - 1], AddrAfter(sizes, n - 1, addr), idx + n - 1, 0, 0)]
  }

  /** Bank number `k` has size number `k`, starts where the one before it ends, and has the next index. */
  ghost predicate InSizes(made: seq<Bank>, sizes: seq<int>, addr: int, idx: int) {
    |made| <= |sizes| && forall k :: 0 <= k < |made| ==>
      && made[k].sizeK == sizes[k] && made[k].mapIdx == idx + k && made[k].level == 0 && made[k].offset == 0
      && made[k].start == if k == 0 then addr else made[k - 1].start + sizes[k - 1] * 1024
  }

  /** The banks an accepted call appends, one by one. */
  lemma {:induction false} ContBanksInSizes(sizes: seq<int>, n: nat, addr: int, idx: int)
    requires n <= |sizes|
    ensures InSizes(ContBanks(sizes, n, addr, idx), sizes, addr, idx)
    ensures AddrAfter(sizes, n, addr) ==
      if n == 0 then addr else ContBanks(sizes, n, addr, idx)[n - 1].start + sizes[n - 1] * 1024
  {
    if n > 0 {
      ContBanksInSizes(sizes, n - 1, addr, idx);
    }
  }

  /** Interleaved banks: one range, offsets counting up. */
  function IlBanks(n: nat, sizeK: int, addr: int, idx: int, level: nat): (r: seq<Bank>)
    ensures |r| == n
  {
    if n == 0 then []
    else IlBanks(n - 1, sizeK, addr, idx, level) + [Bank(sizeK, addr, idx + n - 1, level, n - 1)]
  }

  lemma {:induction false} IlBankAt(n: nat, sizeK: int, addr: int, idx: int, level: nat, k: nat)
    requires k < n
    ensures IlBanks(n, sizeK, addr, idx, level)[k] == Bank(sizeK, addr, idx + k, level, k)
  {
    if k < n - 1 {
      IlBankAt(n - 1, sizeK, addr, idx, level, k);
    }
  }

  /** How many leading sizes the constructor accepts. */
  function Accepted(sizes: seq<int>): (n: nat)
    ensures n <= |sizes|
    ensures forall k :: 0 <= k < n ==> IsPow2(sizes[k])
    ensures n < |sizes| ==> !IsPow2(sizes[n])
  {
    if sizes == [] || !IsPow2(sizes[0]) then 0 else 1 + Accepted(sizes[1..])
  }

  lemma OneContBank(banks: seq<Bank>, next: int, idx: int, sizeK: int)
    requires Laid(banks, next, idx) && IsPow2(sizeK)
    ensures Laid(banks + [Bank(sizeK, next, idx, 0, 0)], next + sizeK * 1024, idx + 1)
  {
    var b := Bank(sizeK, next, idx, 0, 0);
    assert Pow2(0) == 1;
    assert Follows(banks + [b], |banks|);
    AppendFollows(banks, b);
  }

  lemma OneIlBank(banks: seq<Bank>, next: int, idx: int, sizeK: int, level: nat, k: nat, more: seq<Bank>)
    requires Laid(banks, next, idx) && IsPow2(sizeK) && k < Pow2(level)
    requires more == IlBanks(k, sizeK, next, idx, level)
    requires AllFollow(banks + more)
    ensures AllFollow(banks + IlBanks(k + 1, sizeK, next, idx, level))
  {
    var b := Bank(sizeK, next, idx + k, level, k);
    if k > 0 {
      IlBankAt(k, sizeK, next, idx, level, k - 1);
      assert (banks + more)[|banks + more| - 1] == more[k - 1];
    }
    assert Follows(banks + more + [b], |banks + more|);
    AppendFollows(banks + more, b);
    assert banks + more + [b] == banks + (more + [b]);
  }

  lemma WholeGroup(banks: seq<Bank>, next: int, idx: int, sizeK: int, level: nat, n: nat)
    requires Laid(banks, next, idx) && n == Pow2(level) && IsPow2(sizeK)
    requires AllFollow(banks + IlBanks(n, sizeK, next, idx, level))
    ensures Laid(banks + IlBanks(n, sizeK, next, idx, level), next + sizeK * 1024 * n, idx + n)
  {
    IlBankAt(n, sizeK, next, idx, level, n - 1);
    EndAligned(Bank(sizeK, next, idx + n - 1, level, n - 1));
  }

  /** The record of a group names banks that share its range, with offsets from zero. */
  ghost predicate GroupOf(g: Group, banks: seq<Bank>) {
    && 0 <= g.first && g.first + g.n <= |banks| && g.n > 0
    && forall j :: g.first <= j < g.first + g.n ==>
         banks[j].start == g.start && banks[j].offset == j - g.first &&
         Pow2(banks[j].level) == g.n && banks[j].Size() * g.n == g.size
  }

  lemma GroupsKept(groups: seq<Group>, banks: seq<Bank>, more: seq<Bank>)
    requires forall g :: g in groups ==> GroupOf(g, banks)
    ensures forall g :: g in groups ==> GroupOf(g, banks + more)
  {
    forall g | g in groups
      ensures GroupOf(g, banks + more)
    {
      assert GroupOf(g, banks);
    }
  }

  lemma NewGroup(banks: seq<Bank>, n: nat, sizeK: int, addr: int, idx: int, level: nat)
    requires n == Pow2(level)
    ensures GroupOf(Group(addr, sizeK * n * 1024, n, |banks|), banks + IlBanks(n, sizeK, addr, idx, level))
  {
    var g := Group(addr, sizeK * n * 1024, n, |banks|);
    var all := banks + IlBanks(n, sizeK, addr, idx, level);
    GroupBytes(sizeK, n);
    forall j | g.first <= j < g.first + g.n
      ensures all[j] == Bank(sizeK, addr, idx + j - g.first, level, j - g.first)
    {
      IlBankAt(n, sizeK, addr, idx, level, j - |banks|);
    }
  }

  lemma GroupBytes(sizeK: int, n: nat)
    ensures sizeK * 1024 * n == sizeK * n * 1024
  {
  }

  /** Some bank holds each address of the section. */
  ghost predicate SectionBacked(banks: seq<Bank>, s: Section)
    requires s.end.Some?
  {
    forall a :: s.start <= a < s.end.value ==> Backed(banks, a)
  }

  /**
   * The scan has passed the first `i` banks: none of them holds the last address before `end`. Either the address `lo`
   * is found, and all up to the end of these banks are backed, or none of them holds it.
   */
  ghost predicate Scanned(banks: seq<Bank>, i: nat, lo: int, end: int, found: bool, start: int)
    requires i <= |banks|
  {
    && (forall k :: 0 <= k < i ==> !banks[k].Holds(end - 1))
    && if found then
         lo < start == EndOf(banks, i) && start < end && forall a :: lo <= a < start ==> Backed(banks, a)
       else
         forall k :: 0 <= k < i ==> !banks[k].Holds(lo)
  }

  lemma ScanStep(banks: seq<Bank>, i: nat, lo: int, end: int, found: bool, start: int)
    requires AllFollow(banks) && i < |banks| && lo < end && Scanned(banks, i, lo, end, found, start)
    requires found ==> banks[i].start <= start
    ensures var now := found || banks[i].Holds(lo);
      if banks[i].Holds(end - 1) then
        now <==> forall a :: lo <= a < end ==> Backed(banks, a)
      else
        Scanned(banks, i + 1, lo, end, now, if now then banks[i].End() else start)
  {
    assert Follows(banks, i);
    SizePositive(banks[i]);
    if found || banks[i].Holds(lo) {
      if found {
        EndsGrow(banks, i);
      }
      BackedOn(banks, i, lo, if found then start else lo);
    } else if lo < banks[i].start {
      NotLater(banks, i, lo);
    }
  }

  lemma EndsGrow(banks: seq<Bank>, i: nat)
    requires AllFollow(banks) && i < |banks|
    ensures EndOf(banks, i) <= banks[i].End()
  {
    assert Follows(banks, i);
    SizePositive(banks[i]);
  }

  class XHeep {
    var bus: Bus
    var banks: seq<Bank>
    var ilIndices: seq<int>
    var ilGroups: seq<Group>
    var ilPresent: bool
    var nextIdx: int
    var nextAddr: int
    var sections: seq<Section>
    var usedNames: set<string>
    var ignoreContinuous: bool
    var ignoreInterleaved: bool
    var overrideNumbanksIl: int

    /**
     * What every call keeps, accepted or refused: the banks are whole groups in address order, below the next address,
     * and the records agree with them.
     */
    ghost predicate Valid()
      reads this
    {
      && Laid(banks, nextAddr, nextIdx)
      && (forall g :: g in ilGroups ==> GroupOf(g, banks))
      && (ilPresent <==> ilGroups != [])
      && (forall s :: s in sections ==> s.name in usedNames)
    }

    /** The banks fill the addresses below the next one without a hole, and are numbered by position. */
    ghost predicate Tiled()
      reads this
    {
      Tiles(banks, nextAddr)
    }

    constructor (bus: Bus, busOverride: Option<Bus>)
      ensures Valid() && Tiled() && banks == [] && nextAddr == 0 && sections == [] && usedNames == {}
      ensures this.bus == if busOverride.Some? then busOverride.value else bus
      ensures !ignoreContinuous && !ignoreInterleaved
    {
      this.bus := if busOverride.Some? then busOverride.value else bus;
      banks, ilIndices, ilGroups, ilPresent := [], [], [], false;
      nextIdx, nextAddr := 1, 0;
      sections, usedNames := [], {};
      ignoreContinuous, ignoreInterleaved, overrideNumbanksIl := false, false, 0;
    }

    method AddLinkerSectionForBanks(added: seq<Bank>, name: string) returns (ok: bool)
      requires |added| > 0
      modifies `sections, `usedNames
      ensures ok <==> name !in old(usedNames)
      ensures ok ==> usedNames == old(usedNames) + {name}
      ensures ok ==> sections == old(sections) + [Section(name, added[0].start, Some(added[|added| - 1].End()))]
      ensures !ok ==> sections == old(sections) && usedNames == old(usedNames)
    {
      if name in usedNames {
        return false;
      }
      usedNames := usedNames + {name};
      sections := sections + [Section(name, added[0].start, Some(added[|added| - 1].End()))];
      ok := true;
    }

    /** Creates the banks one by one, advancing the next address and index, until one is refused. */
    method MakeContBanks(sizes: seq<int>) returns (made: seq<Bank>, ok: bool)
      requires Laid(banks, nextAddr, nextIdx)
      modifies `nextAddr, `nextIdx
      ensures ok <==> Accepted(sizes) == |sizes|
      ensures made == ContBanks(sizes, Accepted(sizes), old(nextAddr), old(nextIdx))
      ensures nextAddr == AddrAfter(sizes, Accepted(sizes), old(nextAddr)) && nextIdx == old(nextIdx) + Accepted(sizes)
      ensures Laid(banks + made, nextAddr, nextIdx) && Laid(banks, nextAddr, nextIdx)
      ensures ok && |sizes| > 0 ==> made[0].start == old(nextAddr) && made[|made| - 1].End() == nextAddr
    {
      made := [];
      assert banks + made == banks;
      var i: nat := 0;
      while i < |sizes|
        invariant i <= |sizes|
        invariant made == ContBanks(sizes, i, old(nextAddr), old(nextIdx))
        invariant nextAddr == AddrAfter(sizes, i, old(nextAddr)) && nextIdx == old(nextIdx) + i
        invariant Laid(banks + made, nextAddr, nextIdx)
        invariant i <= Accepted(sizes)
      {
        AcceptedFrom(sizes, i);
        var b := MakeBank(sizes[i], nextAddr, nextIdx, 0, 0);
        if b.None? {
          GivenUp(banks, made, nextAddr, nextIdx, old(nextAddr), old(nextIdx));
          return made, false;
        }
        OneContBank(banks + made, nextAddr, nextIdx, sizes[i]);
        assert banks + made + [b.value] == banks + (made + [b.value]);
        made := made + [b.value];
        nextAddr := b.value.End();
        nextIdx := nextIdx + 1;
        i := i + 1;
      }
      ok := true;
      GivenUp(banks, made, nextAddr, nextIdx, old(nextAddr), old(nextIdx));
      if |sizes| > 0 {
        ContEnds(sizes, old(nextAddr), old(nextIdx));
      }
    }

    /**
     * Appends continuous banks and their section, or leaves banks and sections alone. A refused call has still
     * advanced the next address and index past every bank made before the refusal, and so leaves a hole there unless
     * that is none.
     */
    method AddRamBanks(sizes: seq<int>, name: string) returns (ok: bool)
      requires Valid()
      modifies `banks, `nextIdx, `nextAddr, `sections, `usedNames
      ensures ok <==>
        ignoreContinuous || (sizes != [] && Accepted(sizes) == |sizes| && (name == "" || name !in old(usedNames)))
      ensures Valid()
      ensures Tiled() <==> old(Tiled()) && (ok || Accepted(sizes) == 0)
      ensures ok && !ignoreContinuous ==>
        banks == old(banks) + ContBanks(sizes, |sizes|, old(nextAddr), old(nextIdx)) &&
        nextAddr == AddrAfter(sizes, |sizes|, old(nextAddr)) && nextIdx == old(nextIdx) + |sizes|
      ensures ok && !ignoreContinuous && name != "" ==>
        sections == old(sections) + [Section(name, old(nextAddr), Some(nextAddr))] &&
          usedNames == old(usedNames) + {name}
      ensures (ignoreContinuous || !ok || name == "") ==> sections == old(sections) && usedNames == old(usedNames)
      ensures ignoreContinuous || !ok ==> banks == old(banks)
      ensures !ok ==>
        nextAddr == AddrAfter(sizes, Accepted(sizes), old(nextAddr)) && nextIdx == old(nextIdx) + Accepted(sizes)
    {
      if ignoreContinuous {
        return true;
      }
      if |sizes| == 0 {
        return false;
      }
      var made: seq<Bank>;
      made, ok := MakeContBanks(sizes);
      if ok && name != "" {
        ok := AddLinkerSectionForBanks(made, name);
      }
      if ok {
        GroupsKept(ilGroups, banks, made);
        banks := banks + made;
      }
      TiledKept(old(banks), old(nextAddr), old(nextIdx), banks, nextAddr, nextIdx);
    }

    /**
     * Makes the banks of one group: they share the next address, and the first one decides whether the size is
     * accepted.
     */
    method MakeIlBanks(n: nat, sizeK: int, level: nat) returns (made: seq<Bank>, ok: bool)
      requires Laid(banks, nextAddr, nextIdx)
      requires n == Pow2(level)
      modifies `nextIdx
      ensures ok <==> IsPow2(sizeK)
      ensures ok ==> made == IlBanks(n, sizeK, nextAddr, old(nextIdx), level)
      ensures ok ==> Laid(banks + made, nextAddr + sizeK * 1024 * n, nextIdx)
      ensures nextIdx == if ok then old(nextIdx) + n else old(nextIdx)
    {
      made := [];
      assert banks + made == banks;
      var i: nat := 0;
      while i < n
        invariant i <= n
        invariant made == IlBanks(i, sizeK, nextAddr, old(nextIdx), level) && nextIdx == old(nextIdx) + i
        invariant AllFollow(banks + made)
        invariant i > 0 ==> IsPow2(sizeK)
      {
        var b := MakeBank(sizeK, nextAddr, nextIdx, level, i);
        if b.None? {
          return made, false;
        }
        OneIlBank(banks, nextAddr, old(nextIdx), sizeK, level, i, made);
        made := made + [b.value];
        nextIdx := nextIdx + 1;
        i := i + 1;
      }
      ok := true;
      WholeGroup(banks, nextAddr, old(nextIdx), sizeK, level, n);
    }

    /** What an accepted interleaved call leaves. */
    ghost predicate GrownIl(was: seq<Bank>, addr: int, idx: int, groups: seq<Group>, indices: seq<int>, num: nat,
                            sizeK: int)
      reads this
    {
      && ilIndices == indices + seq(num, i => |was| + i)
      && banks == was + IlBanks(num, sizeK, addr, idx, Exponent(num))
      && nextAddr == addr + sizeK * 1024 * num
      && ilGroups == groups + [Group(addr, sizeK * num * 1024, num, |was|)]
    }

    /**
     * Appends one interleaved group of a power of two of equal banks. A refused size changes nothing; a refused
     * section name has still moved the next address and index past the group.
     */
    method AddRamBanksIl(num: int, sizeK: int, name: string, ignoreIgnore: bool) returns (ok: bool)
      requires Valid()
      modifies `banks, `nextIdx, `nextAddr, `sections, `usedNames, `ilIndices, `ilGroups, `ilPresent
      ensures var ignored := ignoreInterleaved && !ignoreIgnore;
        ok <==> ignored || (bus == NToM && IsPow2(num) && IsPow2(sizeK) && (name == "" || name !in old(usedNames)))
      ensures Valid()
      ensures Tiled() <==> old(Tiled()) && (ok || !(bus == NToM && IsPow2(num) && IsPow2(sizeK)))
      ensures var ignored := ignoreInterleaved && !ignoreIgnore;
        ok && !ignored ==>
          IsPow2(num) && GrownIl(old(banks), old(nextAddr), old(nextIdx), old(ilGroups), old(ilIndices), num, sizeK)
      ensures var ignored := ignoreInterleaved && !ignoreIgnore;
        ok && !ignored && name != "" ==>
          sections == old(sections) + [Section(name, old(nextAddr), Some(nextAddr))] &&
            usedNames == old(usedNames) + {name}
      ensures !ok || name == "" || (ignoreInterleaved && !ignoreIgnore) ==>
        sections == old(sections) && usedNames == old(usedNames)
      ensures !ok || (ignoreInterleaved && !ignoreIgnore) ==>
        banks == old(banks) && ilGroups == old(ilGroups) && ilIndices == old(ilIndices)
      ensures !ok ==>
        nextAddr == old(nextAddr) + if bus == NToM && IsPow2(num) && IsPow2(sizeK) then sizeK * 1024 * num else 0
    {
      if ignoreInterleaved && !ignoreIgnore {
        return true;
      }
      if bus != NToM {
        return false;
      }
      if !IsPow2(num) {
        return false;
      }
      ok := AddGroup(num, sizeK, name);
    }

    method AddGroup(num: nat, sizeK: int, name: string) returns (ok: bool)
      requires Valid() && IsPow2(num)
      modifies `banks, `nextIdx, `nextAddr, `sections, `usedNames, `ilIndices, `ilGroups, `ilPresent
      ensures ok <==> IsPow2(sizeK) && (name == "" || name !in old(usedNames))
      ensures Valid()
      ensures Tiled() <==> old(Tiled()) && (ok || !IsPow2(sizeK))
      ensures ok ==> GrownIl(old(banks), old(nextAddr), old(nextIdx), old(ilGroups), old(ilIndices), num, sizeK)
      ensures ok && name != "" ==>
        sections == old(sections) + [Section(name, old(nextAddr), Some(nextAddr))] &&
          usedNames == old(usedNames) + {name}
      ensures !ok || name == "" ==> sections == old(sections) && usedNames == old(usedNames)
      ensures !ok ==> banks == old(banks) && ilGroups == old(ilGroups) && ilIndices == old(ilIndices)
      ensures !ok ==> nextAddr == old(nextAddr) + if IsPow2(sizeK) then sizeK * 1024 * num else 0
    {
      IsPow2Means(num);
      var level: nat := Exponent(num);
      var made: seq<Bank>;
      made, ok := MakeGroup(num, sizeK, level);
      if !ok {
        return;
      }
      if name != "" {
        ok := AddLinkerSectionForBanks(made, name);
      }
      if ok {
        CommitGroup(made, num, sizeK, level, old(nextAddr), old(nextIdx));
      }
      TiledKept(old(banks), old(nextAddr), old(nextIdx), banks, nextAddr, nextIdx);
    }

    /** Makes the banks of a group and moves the next address past it. */
    method MakeGroup(num: nat, sizeK: int, level: nat) returns (made: seq<Bank>, ok: bool)
      requires Laid(banks, nextAddr, nextIdx) && num == Pow2(level)
      modifies `nextIdx, `nextAddr
      ensures ok <==> IsPow2(sizeK)
      ensures Laid(banks, nextAddr, nextIdx)
      ensures ok ==>
        made == IlBanks(num, sizeK, old(nextAddr), old(nextIdx), level) && Laid(banks + made, nextAddr, nextIdx)
      ensures ok ==> made[0].start == old(nextAddr) && made[|made| - 1].End() == nextAddr
      ensures ok ==> nextAddr == old(nextAddr) + sizeK * 1024 * num && nextIdx == old(nextIdx) + num
      ensures !ok ==> nextAddr == old(nextAddr) && nextIdx == old(nextIdx)
    {
      made, ok := MakeIlBanks(num, sizeK, level);
      if ok {
        GroupEnd(num, sizeK, nextAddr, nextIdx - num, level);
        nextAddr := made[|made| - 1].End();
        GivenUp(banks, made, nextAddr, nextIdx, old(nextAddr), old(nextIdx));
      }
    }

    /** Records the banks of an accepted group. */
    method CommitGroup(made: seq<Bank>, num: nat, sizeK: int, level: nat, ghost addr: int, ghost idx: int)
      requires num == Pow2(level) && made == IlBanks(num, sizeK, addr, idx, level)
      requires forall g :: g in ilGroups ==> GroupOf(g, banks)
      modifies `banks, `ilIndices, `ilGroups, `ilPresent
      ensures banks == old(banks) + made
      ensures ilGroups == old(ilGroups) + [Group(addr, sizeK * num * 1024, num, |old(banks)|)]
      ensures ilIndices == old(ilIndices) + seq(num, i => |old(banks)| + i)
      ensures ilPresent && forall g :: g in ilGroups ==> GroupOf(g, banks)
    {
      var firstIl := |banks|;
      IlBankAt(num, sizeK, addr, idx, level, 0);
      GroupsKept(ilGroups, banks, made);
      NewGroup(banks, num, sizeK, addr, idx, level);
      banks := banks + made;
      ilIndices := ilIndices + seq(num, i => firstIl + i);
      ilGroups := ilGroups + [Group(made[0].start, sizeK * num * 1024, |made|, firstIl)];
      ilPresent := true;
    }

    /** Adds a copy of a section, or raises and changes nothing. */
    method AddLinkerSection(section: Section) returns (ok: bool)
      requires Valid()
      modifies `sections, `usedNames
      ensures Valid()
      ensures ok <==> section.Checked() && section.name !in old(usedNames)
      ensures ok ==> sections == old(sections) + [section] && usedNames == old(usedNames) + {section.name}
      ensures !ok ==> sections == old(sections) && usedNames == old(usedNames)
    {
      if !section.Checked() || section.name in usedNames {
        return false;
      }
      usedNames := usedNames + {section.name};
      sections := sections + [section];
      ok := true;
    }

    /**
     * The size of the memory is the number of addresses the banks hold. It is where the next bank would start exactly
     * when there is no hole.
     */
    method RamSizeAddress() returns (size: int)
      requires Valid()
      ensures size == |Addresses(banks, |banks|)|
      ensures size <= nextAddr && (size == nextAddr <==> Tiled())
    {
      size := 0;
      var i: nat := 0;
      while i < |banks|
        invariant i <= |banks| && size == SizeSum(banks, i)
      {
        size := size + banks[i].Size();
        i := i + 1;
      }
      SizeSumIsHeld(banks);
      SizeSumIsNextIffTiled(banks, nextAddr, nextIdx);
    }

    /** The end of construction: an override allocates its own banks of 32 KiB and makes later calls no-ops. */
    method ApplyOverride(numbanks: Option<int>, numbanksIl: Option<int>) returns (ok: bool)
      requires Valid() && Tiled() && banks == [] && !ignoreContinuous && !ignoreInterleaved
      modifies `banks, `nextIdx, `nextAddr, `sections, `usedNames
      modifies `ignoreContinuous, `ignoreInterleaved, `overrideNumbanksIl
      ensures sections == old(sections) && usedNames == old(usedNames)
      ensures ok <==> numbanks.None? || numbanks.value > 0
      ensures Valid() && Tiled()
      ensures ok ==> ignoreContinuous == numbanks.Some? && ignoreInterleaved == numbanksIl.Some?
      ensures ok && numbanks.Some? ==> |banks| == numbanks.value && nextAddr == 0x8000 * numbanks.value
      ensures ok && numbanks.None? ==> banks == []
      ensures ok && numbanksIl.Some? ==> overrideNumbanksIl == numbanksIl.value
    {
      ok := true;
      if numbanks.Some? {
        var sizes := seq(PositivePart(numbanks.value), _ => 32);
        AllThirtyTwo(sizes, |sizes|, nextAddr);
        ok := AddRamBanks(sizes, "");
        if !ok {
          return;
        }
        ignoreContinuous := true;
      }
      if numbanksIl.Some? {
        ignoreInterleaved := true;
        overrideNumbanksIl := numbanksIl.value;
      }
    }

    /** Applies the interleaved override, sorts the sections and fills in the missing ends. */
    method Build() returns (ok: bool)
      requires Valid()
      modifies `banks, `nextIdx, `nextAddr, `sections, `usedNames, `ilIndices, `ilGroups, `ilPresent
      ensures !ignoreInterleaved ==> banks == old(banks) && sections == WithEnds(Sort(old(sections)), LastEnd())
      ensures !ignoreInterleaved ==> (ok <==> |banks| > 0 || EndsGiven(old(sections)))
      ensures ok && ignoreInterleaved ==>
        GrownIl(old(banks), old(nextAddr), old(nextIdx), old(ilGroups), old(ilIndices),
                PositivePart(overrideNumbanksIl), 32) &&
        sections == WithEnds(Sort(
          if |old(banks)| > 1 then old(sections) + [Section("data_interleaved", old(nextAddr), Some(nextAddr))]
          else old(sections)), LastEnd())
      ensures Valid()
      ensures ok ==> forall s :: s in sections ==> s.end.Some?
      ensures !ignoreInterleaved ==> EndsFilled(Sort(old(sections)), sections, LastEnd())
      ensures Tiled() <==>
        old(Tiled()) && (ok || !ignoreInterleaved || bus != NToM || !IsPow2(overrideNumbanksIl))
      ensures ignoreInterleaved ==> (ok <==>
        bus == NToM && IsPow2(overrideNumbanksIl) && !(|old(banks)| > 1 && "data_interleaved" in old(usedNames)))
      ensures !ok && ignoreInterleaved ==> banks == old(banks) && sections == old(sections)
    {
      if ignoreInterleaved {
        var name := if |banks| > 1 then "data_interleaved" else "";
        ok := AddRamBanksIl(overrideNumbanksIl, 32, name, true);
        ThirtyTwo();
        if !ok {
          return;
        }
      }
      ok := InferSections();
    }

    /** The end of the last bank in the list, if there is one. */
    ghost function LastEnd(): Option<int>
      reads this
    {
      if |banks| == 0 then None else Some(banks[|banks| - 1].End())
    }

    method InferSections() returns (ok: bool)
      requires forall s :: s in sections ==> s.name in usedNames
      modifies `sections
      ensures sections == WithEnds(Sort(old(sections)), LastEnd())
      ensures EndsFilled(Sort(old(sections)), sections, LastEnd())
      ensures forall s :: s in sections ==> s.name in usedNames
      ensures ok <==> |banks| > 0 || EndsGiven(old(sections))
      ensures ok ==> forall s :: s in sections ==> s.end.Some?
    {
      var sorted := Sort(sections);
      var last := if |banks| == 0 then None else Some(banks[|banks| - 1].End());
      var raised;
      sections, raised := InferEnds(sorted, last);
      NamesKept(old(sections), last, usedNames);
      ok := !raised;
      if ok {
        EndsKnown(sorted, last);
      }
    }

    /** The scan of one section over the banks, in order: it finds whether some bank holds each of its addresses. */
    method ScanSection(sec: Section) returns (inside: bool)
      requires Laid(banks, nextAddr, nextIdx)
      requires sec.end.Some? && 0 <= sec.start < sec.end.value
      ensures inside <==> SectionBacked(banks, sec)
    {
      inside := true;
      var end := sec.end.value;
      var start := sec.start;
      var foundStart, foundEnd := false, false;
      var i: nat := 0;
      while i < |banks|
        invariant i <= |banks| && inside && !foundEnd
        invariant Scanned(banks, i, sec.start, end, foundStart, start)
      {
        ghost var was, from := foundStart, start;
        if foundStart {
          if banks[i].start > start {
            Unbacked(banks, i, start);
            inside := false;
            foundEnd := true;
            break;
          } else {
            start := banks[i].End();
          }
        }
        if sec.start >= banks[i].start && sec.start < banks[i].End() {
          foundStart := true;
          start := banks[i].End();
        }
        ScanStep(banks, i, sec.start, end, was, from);
        if end <= banks[i].End() && end > banks[i].start {
          foundEnd := true;
          break;
        }
        i := i + 1;
      }
      if !foundStart {
        inside := false;
      }
      if !foundEnd {
        assert !Backed(banks, end - 1);
        inside := false;
      }
    }

    /** The configuration `validate` stands for, stated without its loops. */
    ghost predicate Configured()
      reads this
    {
      && 2 <= |banks| <= 16
      && "code" in usedNames && "data" in usedNames
    }

    ghost predicate SectionsChecked()
      reads this
    {
      forall s :: s in sections ==> s.Checked() && s.end.Some?
    }

    ghost predicate SectionsPlaced()
      reads this
      requires SectionsChecked()
    {
      && (|sections| > 0 ==> sections[0].name == "code")
      && (|sections| > 1 ==> sections[1].name == "data")
      && forall s :: s in sections ==> SectionBacked(banks, s)
    }

    /**
     * `validate` raises for a section that fails its check, and otherwise answers whether there are 2 to 16 banks,
     * the first two sections are code and data, and some bank holds each address of every section.
     */
    method Validate() returns (out: Outcome)
      requires Valid()
      ensures out == Raised <==> Configured() && !SectionsChecked()
      ensures out == Answer(true) <==> Configured() && SectionsChecked() && SectionsPlaced()
    {
      if !(2 <= |banks| < 17) {
        return Answer(false);
      }
      if !("code" in usedNames && "data" in usedNames) {
        return Answer(false);
      }
      var checked := CheckAll();
      if !checked {
        return Raised;
      }
      var ret := true;
      var i: nat := 0;
      while i < |sections|
        invariant i <= |sections|
        invariant forall k :: 0 <= k < i ==> sections[k].end.Some?
        invariant ret <==>
          (i > 0 ==> sections[0].name == "code") && (i > 1 ==> sections[1].name == "data") &&
          forall k :: 0 <= k < i ==> sections[k].end.Some? && SectionBacked(banks, sections[k])
      {
        var sec := sections[i];
        if i == 0 && sec.name != "code" {
          ret := false;
        } else if i == 1 && sec.name != "data" {
          ret := false;
        }
        assert sec in sections;
        if sec.end.None? {
          return Raised;
        }
        var inside := ScanSection(sec);
        if !inside {
          ret := false;
        }
        i := i + 1;
      }
      return Answer(ret);
    }

    method CheckAll() returns (ok: bool)
      ensures ok <==> forall s :: s in sections ==> s.Checked()
    {
      var i: nat := 0;
      while i < |sections|
        invariant i <= |sections|
        invariant forall k :: 0 <= k < i ==> sections[k].Checked()
      {
        if !sections[i].Checked() {
          return false;
        }
        i := i + 1;
      }
      ok := true;
    }
  }

  lemma AcceptedFrom(sizes: seq<int>, i: nat)
    requires i < |sizes| && i <= Accepted(sizes)
    ensures IsPow2(sizes[i]) <==> i < Accepted(sizes)
  {
  }

  lemma ContEnds(sizes: seq<int>, addr: int, idx: int)
    requires |sizes| > 0
    ensures var made := ContBanks(sizes, |sizes|, addr, idx);
      made[0].start == addr && made[|made| - 1].End() == AddrAfter(sizes, |sizes|, addr)
  {
    FirstCont(sizes, |sizes|, addr, idx);
  }

  lemma {:induction false} FirstCont(sizes: seq<int>, n: nat, addr: int, idx: int)
    requires 0 < n <= |sizes|
    ensures ContBanks(sizes, n, addr, idx)[0].start == addr
  {
    if n > 1 {
      FirstCont(sizes, n - 1, addr, idx);
    }
  }

  /** What decides whether banks still tile is how many were made and not kept. */
  lemma TiledKept(was: seq<Bank>, wasNext: int, wasIdx: int, now: seq<Bank>, next: int, idx: int)
    requires Laid(was, wasNext, wasIdx) && Laid(now, next, idx)
    requires idx - |now| >= wasIdx - |was|
    ensures Tiles(now, next) <==> Tiles(was, wasNext) && idx - |now| == wasIdx - |was|
  {
    TiledIffNumbered(was, wasNext, wasIdx);
    TiledIffNumbered(now, next, idx);
  }

  /** Banks made and then given up: the ones kept are still laid out, further from the next address. */
  lemma GivenUp(banks: seq<Bank>, made: seq<Bank>, next: int, idx: int, was: int, wasIdx: int)
    requires Laid(banks, was, wasIdx) && Laid(banks + made, next, idx) && idx == wasIdx + |made|
    ensures Laid(banks, next, idx)
  {
    if |made| == 0 {
      assert banks + made == banks;
    } else {
      var all := banks + made;
      var b := made[0];
      assert b == all[|banks|];
      assert Follows(all, |banks|);
      StartsBelow(all, |banks|, next);
    }
  }

  lemma GroupEnd(n: nat, sizeK: int, addr: int, idx: int, level: nat)
    requires n == Pow2(level)
    ensures var made := IlBanks(n, sizeK, addr, idx, level);
      made[0].start == addr && made[|made| - 1].End() == addr + sizeK * 1024 * n
  {
    IlBankAt(n, sizeK, addr, idx, level, 0);
    IlBankAt(n, sizeK, addr, idx, level, n - 1);
  }

  /** The section that starts last has its end. */
  predicate EndsGiven(sections: seq<Section>) {
    var sorted := Sort(sections);
    sorted == [] || sorted[|sorted| - 1].end.Some?
  }

  function PositivePart(n: int): nat {
    if n > 0 then n else 0
  }

  lemma ThirtyTwo()
    ensures IsPow2(32)
  {
    assert Pow2(5) == 32 by {
      assert Pow2(1) == 2 && Pow2(2) == 4 && Pow2(3) == 8;
    }
    IsPow2Means(32);
  }

  lemma {:induction false} AllThirtyTwo(sizes: seq<int>, n: nat, addr: int)
    requires n <= |sizes| && forall k :: 0 <= k < |sizes| ==> sizes[k] == 32
    ensures Accepted(sizes) == |sizes| && AddrAfter(sizes, n, addr) == addr + 0x8000 * n
  {
    ThirtyTwo();
    if n > 0 {
      AllThirtyTwo(sizes, n - 1, addr);
    }
  }

  lemma NamesKept(sections: seq<Section>, limit: Option<int>, names: set<string>)
    requires forall s :: s in sections ==> s.name in names
    ensures forall s :: s in WithEnds(Sort(sections), limit) ==> s.name in names
  {
    var sorted := Sort(sections);
    SortKeeps(sections);
    forall i | 0 <= i < |sorted|
      ensures WithEnds(sorted, limit)[i].name in names
    {
      assert sorted[i] in multiset(sorted);
      assert sorted[i] in sections;
    }
  }

  lemma EndsKnown(sorted: seq<Section>, limit: Option<int>)
    requires limit.Some? || sorted == [] || sorted[|sorted| - 1].end.Some?
    ensures forall s :: s in WithEnds(sorted, limit) ==> s.end.Some?
  {
  }

  /** A bank that starts no later than `a` continues a backed range. */
  lemma BackedOn(banks: seq<Bank>, i: nat, lo: int, a: int)
    requires i < |banks| && banks[i].start <= a
    requires forall x :: lo <= x < a ==> Backed(banks, x)
    ensures forall x :: lo <= x < banks[i].End() ==> Backed(banks, x)
  {
    forall x | lo <= x < banks[i].End()
      ensures Backed(banks, x)
    {
      assert x >= a ==> banks[i].Holds(x);
    }
  }

  /** An address in front of a bank, and in none before that, is in no bank. */
  lemma NotLater(banks: seq<Bank>, i: nat, a: int)
    requires AllFollow(banks) && i < |banks| && a < banks[i].start
    requires forall k :: 0 <= k < i ==> !banks[k].Holds(a)
    ensures !Backed(banks, a)
  {
    assert Follows(banks, i);
    SizePositive(banks[i]);
    forall k | i < k < |banks|
      ensures !banks[k].Holds(a)
    {
      BanksDisjoint(banks, i, k);
    }
  }
  // ---------------------------------------------------------------- whole runs

  datatype Call =
    | Continuous(sizes: seq<int>, section: string)
    | Interleaved(num: int, sizeK: int, section: string)
    | AddSection(added: Section)
    | Finish

  /**
   * Any calls in any order, refused ones caught: at the end `validate` answers true exactly for 2 to 16 banks with code
   * and data first and each address of each section held by a bank; and the size reported is the number of addresses
   * held.
   */
  method Run(x: XHeep, calls: seq<Call>) returns (out: Outcome, size: int)
    requires x.Valid()
    modifies x
    ensures x.Valid()
    ensures out == Answer(true) <==> x.Configured() && x.SectionsChecked() && x.SectionsPlaced()
    ensures size == |Addresses(x.banks, |x.banks|)| <= x.nextAddr
  {
    for i := 0 to |calls|
      invariant x.Valid()
    {
      match calls[i] {
        case Continuous(sizes, section) =>
          var _ := x.AddRamBanks(sizes, section);
        case Interleaved(num, sizeK, section) =>
          var _ := x.AddRamBanksIl(num, sizeK, section, false);
        case AddSection(added) =>
          var _ := x.AddLinkerSection(added);
        case Finish =>
          var _ := x.Build();
      }
    }
    size := x.RamSizeAddress();
    out := x.Validate();
  }

  /**
   * A refused call is not harmless: `[32, 3]` is refused at its second size, when the next address has already moved on
   * by 32 KiB, and the bank added after it leaves a hole.
   */
  method RefusedCallLeavesHole() returns (x: XHeep, refused: bool, size: int)
    ensures fresh(x) && x.Valid() && refused && !x.Tiled()
    ensures x.banks == [Bank(32, 0, 1, 0, 0), Bank(32, 0x1_0000, 3, 0, 0)]
    ensures x.nextAddr == 0x1_8000 && size == 0x1_0000
    ensures x.sections == [Section("code", 0, Some(0x8000)), Section("data", 0x1_0000, Some(0x1_8000))]
    ensures x.usedNames == {"code", "data"}
  {
    x := new XHeep(OneToM, None);
    AddBankOf32(x, "code");
    refused := RefuseSecond(x);
    AddBankOf32(x, "data");
    size := SizeOfTwo(x);
  }

  method RefuseSecond(x: XHeep) returns (refused: bool)
    requires x.Valid() && !x.ignoreContinuous
    modifies x`banks, x`nextIdx, x`nextAddr, x`sections, x`usedNames
    ensures refused && x.Valid() && !x.Tiled()
    ensures x.banks == old(x.banks) && x.sections == old(x.sections) && x.usedNames == old(x.usedNames)
    ensures x.nextAddr == old(x.nextAddr) + 0x8000 && x.nextIdx == old(x.nextIdx) + 1
  {
    ByThirtyTwo(x.nextAddr, x.nextIdx);
    var ok := x.AddRamBanks([32, 3], "");
    refused := !ok;
  }

  method AddBankOf32(x: XHeep, name: string)
    requires x.Valid() && !x.ignoreContinuous && name != "" && name !in x.usedNames
    modifies x`banks, x`nextIdx, x`nextAddr, x`sections, x`usedNames
    ensures x.Valid() && (x.Tiled() <==> old(x.Tiled()))
    ensures x.banks == old(x.banks) + [Bank(32, old(x.nextAddr), old(x.nextIdx), 0, 0)]
    ensures x.nextAddr == old(x.nextAddr) + 0x8000 && x.nextIdx == old(x.nextIdx) + 1
    ensures x.sections == old(x.sections) + [Section(name, old(x.nextAddr), Some(x.nextAddr))]
    ensures x.usedNames == old(x.usedNames) + {name}
  {
    ByThirtyTwo(x.nextAddr, x.nextIdx);
    var _ := x.AddRamBanks([32], name);
  }

  lemma ByThirtyTwo(addr: int, idx: int)
    ensures Accepted([32]) == 1 && Accepted([32, 3]) == 1
    ensures ContBanks([32], 1, addr, idx) == [Bank(32, addr, idx, 0, 0)]
    ensures AddrAfter([32], 1, addr) == addr + 0x8000
    ensures forall a :: AddrAfter([32, 3], 1, a) == a + 0x8000
  {
    ThirtyTwo();
    OddNotPow2(3);
    assert [32, 3][1..] == [3] && [32][1..] == [];
    assert AddrAfter([32], 0, addr) == addr;
    assert ContBanks([32], 0, addr, idx) == [];
  }

  method SizeOfTwo(x: XHeep) returns (size: int)
    requires x.Valid() && |x.banks| == 2 && x.banks[0].sizeK == 32 == x.banks[1].sizeK
    ensures size == 0x1_0000
  {
    size := x.RamSizeAddress();
    SizeSumIsHeld(x.banks);
    assert SizeSum(x.banks, 1) == SizeSum(x.banks, 0) + 0x8000;
  }

  /** A section across the hole is turned down, though it ends below the next address. */
  method HoleIsReported() returns (x: XHeep, out: Outcome)
    ensures x.Configured() && x.SectionsChecked() && forall s :: s in x.sections ==> s.end.value <= x.nextAddr
    ensures out == Answer(false)
  {
    var refused, size;
    x, refused, size := RefusedCallLeavesHole();
    var across := Section("heap", 0x4000, Some(0x1_4000));
    var _ := x.AddLinkerSection(across);
    assert Pow2(0) == 1;
    Unbacked(x.banks, 1, 0x8000);
    assert across in x.sections && !SectionBacked(x.banks, across);
    out := x.Validate();
  }
}
