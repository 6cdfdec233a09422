/** Entries of a FAT32 table that is kept in several copies: read from the first copy, patched in one
    sector buffer, and written to every copy. */
module Mirror {

  const ENTRIES: nat := 128
  const TOP: nat := 0x1000_0000
  const WORD: nat := 0x1_0000_0000

  type Entry = n: nat | n < WORD
  type Sector = seq<Entry>

  /** `first` is `FAT1_firstsector`, `perFat` is `sector_per_FAT`, `copies` is `NumFATs`. */
  datatype Volume = Volume(first: nat, perFat: nat, copies: nat)

  /** The sector of copy `i` that is `s` sectors into the table. */
  function SectorOf(v: Volume, i: nat, s: nat): nat {
    v.first + v.perFat * i + s
  }

  ghost predicate Sectors(disk: seq<Sector>) {
    forall k :: 0 <= k < |disk| ==> |disk[k]| == ENTRIES
  }

  /** All the sectors that reading and writing entry `e` touches are on the disk. */
  ghost predicate Reaches(v: Volume, disk: seq<Sector>, e: nat) {
    && Sectors(disk) && SectorOf(v, 0, e / ENTRIES) < |disk|
    && (forall i :: 0 <= i < v.copies ==> SectorOf(v, i, e / ENTRIES) < |disk|)
  }

  /** The whole table, in all its copies, is on the disk. */
  ghost predicate Mounted(v: Volume, disk: seq<Sector>) {
    Sectors(disk) && v.copies > 0 && v.first + v.perFat * v.copies <= |disk|
  }

  /** The low 28 bits of an entry replaced. */
  function Patched(old': Entry, value: Entry): Entry {
    old' / TOP * TOP + value % TOP
  }

  function EntryOf(v: Volume, disk: seq<Sector>, e: nat): Entry
    requires Sectors(disk) && SectorOf(v, 0, e / ENTRIES) < |disk|
  {
    disk[SectorOf(v, 0, e / ENTRIES)][e % ENTRIES]
  }

  function Buffer(v: Volume, disk: seq<Sector>, e: nat, value: Entry): (buf: Sector)
    requires Sectors(disk) && SectorOf(v, 0, e / ENTRIES) < |disk|
    ensures |buf| == ENTRIES
  {
    disk[SectorOf(v, 0, e / ENTRIES)][e % ENTRIES := Patched(EntryOf(v, disk, e), value)]
  }

  /** The disk after writing one buffer to the first `n` copies. */
  function Spread(v: Volume, disk: seq<Sector>, s: nat, buf: Sector, n: nat): (r: seq<Sector>)
    requires forall i :: 0 <= i < n ==> SectorOf(v, i, s) < |disk|
    ensures |r| == |disk|
  {
    if n == 0 then disk else Spread(v, disk, s, buf, n - 1)[SectorOf(v, n - 1, s) := buf]
  }

  function Written(v: Volume, disk: seq<Sector>, e: nat, value: Entry): (r: seq<Sector>)
    requires Reaches(v, disk, e)
    ensures |r| == |disk|
  {
    Spread(v, disk, e / ENTRIES, Buffer(v, disk, e, value), v.copies)
  }

  // ---- in place ----

  class Disk {
    var sectors: seq<Sector>
    const v: Volume

    constructor (v: Volume, sectors: seq<Sector>)
      ensures this.v == v && this.sectors == sectors
    {
      this.v, this.sectors := v, sectors;
    }

    /** Whatever was written to the table since some state of the disk, the entry reads as the value last
        written to it, or as it was in that state. */
    method ReadEntry(e: nat) returns (r: nat)
      requires Reaches(v, sectors, e)
      ensures r == EntryOf(v, sectors, e) % TOP
      ensures forall disk, updates ::
                (Mounted(v, disk) && Inside(v, updates) && e < v.perFat * ENTRIES
                 && sectors == WrittenAll(v, disk, updates)) ==>
                  r == LastValue(Flat(v, disk)[e], updates, e)
    {
      var buf := sectors[v.first + e / ENTRIES];
      r := buf[e % ENTRIES] % TOP;
      forall disk, updates | Mounted(v, disk) && Inside(v, updates) && e < v.perFat * ENTRIES
                             && sectors == WrittenAll(v, disk, updates)
        ensures r == LastValue(Flat(v, disk)[e], updates, e)
      {
        TableIsAMap(v, disk, updates, e);
      }
    }

    method WriteEntry(e: nat, value: Entry)
      requires Reaches(v, sectors, e)
      modifies this`sectors
      ensures sectors == Written(v, old(sectors), e, value)
    {
      var buf := sectors[v.first + e / ENTRIES];
      buf := buf[e % ENTRIES := buf[e % ENTRIES] / TOP * TOP + value % TOP];
      var i := 0;
      while i < v.copies
        invariant 0 <= i <= v.copies && |sectors| == |old(sectors)|
        invariant sectors == Spread(v, old(sectors), e / ENTRIES, buf, i)
      {
        assert SectorOf(v, i, e / ENTRIES) < |sectors|;
        sectors := sectors[v.first + v.perFat * i + e / ENTRIES := buf];
        i := i + 1;
      }
    }
  }

  // ---- one write ----

  lemma PatchedBits(old': Entry, value: Entry)
    ensures Patched(old', value) % TOP == value % TOP && Patched(old', value) / TOP == old' / TOP
  {
  }

  /** Exactly the sectors written to hold the buffer. */
  lemma {:induction false} SpreadSectors(v: Volume, disk: seq<Sector>, s: nat, buf: Sector, n: nat)
    requires forall i :: 0 <= i < n ==> SectorOf(v, i, s) < |disk|
    ensures var r := Spread(v, disk, s, buf, n);
            && (forall i :: 0 <= i < n ==> r[SectorOf(v, i, s)] == buf)
            && (forall k :: 0 <= k < |disk| && (forall i :: 0 <= i < n ==> SectorOf(v, i, s) != k) ==> r[k] == disk[k])
  {
    hide SectorOf;
    if n > 0 {
      SpreadSectors(v, disk, s, buf, n - 1);
    }
  }

  lemma WrittenSectors(v: Volume, disk: seq<Sector>, e: nat, value: Entry)
    requires Reaches(v, disk, e)
    ensures var r := Written(v, disk, e, value);
            && Sectors(r)
            && (forall i :: 0 <= i < v.copies ==> r[SectorOf(v, i, e / ENTRIES)] == Buffer(v, disk, e, value))
            && (forall k :: (0 <= k < |disk| && forall i :: 0 <= i < v.copies ==> SectorOf(v, i, e / ENTRIES) != k) ==>
                              r[k] == disk[k])
  {
    hide SectorOf;
    var buf := Buffer(v, disk, e, value);
    SpreadSectors(v, disk, e / ENTRIES, buf, v.copies);
    var r := Written(v, disk, e, value);
    forall k | 0 <= k < |r|
      ensures |r[k]| == ENTRIES
    {
      if i :| 0 <= i < v.copies && SectorOf(v, i, e / ENTRIES) == k {
        assert r[k] == buf;
      }
    }
  }

  /** A read gives back the value written, modulo 2^28, exactly when there is a copy to write to or
      nothing had to change. */
  lemma ReadAfterWrite(v: Volume, disk: seq<Sector>, e: nat, value: Entry)
    requires Reaches(v, disk, e)
    ensures Sectors(Written(v, disk, e, value))
    ensures EntryOf(v, Written(v, disk, e, value), e) % TOP == value % TOP <==>
              v.copies > 0 || EntryOf(v, disk, e) % TOP == value % TOP
  {
    WrittenSectors(v, disk, e, value);
    PatchedBits(EntryOf(v, disk, e), value);
  }

  lemma LaterCopy(v: Volume, i: nat, s: nat, j: nat, t: nat)
    requires s < v.perFat && i < j
    ensures SectorOf(v, i, s) < SectorOf(v, j, t)
  {
    assert v.perFat * j >= v.perFat * (i + 1);
  }

  /** Where the entry is: in every copy, that many sectors into it, the low 28 bits are those of the value. */
  lemma WrittenWhere(v: Volume, disk: seq<Sector>, e: nat, value: Entry, i: nat)
    requires Reaches(v, disk, e) && i < v.copies
    ensures var r, k := Written(v, disk, e, value), v.first + v.perFat * i + e / 128;
            && |r| == |disk| && k < |r| && |r[k]| == 128
            && r[k][e % 128] % 0x1000_0000 == value % 0x1000_0000
            && (v.first + e / 128 < |disk| && |disk[v.first + e / 128]| == 128)
            && r[k][e % 128] / 0x1000_0000 == disk[v.first + e / 128][e % 128] / 0x1000_0000
            && (forall j :: 0 <= j < 128 && j != e % 128 ==> r[k][j] == disk[v.first + e / 128][j])
  {
    assert SectorOf(v, i, e / ENTRIES) == v.first + v.perFat * i + e / 128;
    WrittenSectors(v, disk, e, value);
    PatchedBits(EntryOf(v, disk, e), value);
  }

  /** Sectors of different copies, or at different places of the table, differ. */
  lemma SectorsDiffer(v: Volume, i: nat, s: nat, j: nat, t: nat)
    requires s < v.perFat && t < v.perFat && SectorOf(v, i, s) == SectorOf(v, j, t)
    ensures i == j && s == t
  {
    if i < j {
      LaterCopy(v, i, s, j, t);
    } else if j < i {
      LaterCopy(v, j, t, i, s);
    }
  }

  lemma SectorOnDisk(v: Volume, disk: seq<Sector>, i: nat, s: nat)
    requires Mounted(v, disk) && i < v.copies && s < v.perFat
    ensures SectorOf(v, i, s) < |disk|
  {
    assert v.perFat * v.copies >= v.perFat * (i + 1);
  }

  /** All copies are the same. */
  ghost predicate Identical(v: Volume, disk: seq<Sector>) {
    forall i, s ::
      (0 <= i < v.copies && 0 <= s < v.perFat && SectorOf(v, i, s) < |disk| && SectorOf(v, 0, s) < |disk|) ==>
        disk[SectorOf(v, i, s)] == disk[SectorOf(v, 0, s)]
  }

  lemma InsideReaches(v: Volume, disk: seq<Sector>, e: nat)
    requires Mounted(v, disk) && e / ENTRIES < v.perFat
    ensures Reaches(v, disk, e)
  {
    forall i | 0 <= i < v.copies
      ensures SectorOf(v, i, e / ENTRIES) < |disk|
    {
      SectorOnDisk(v, disk, i, e / ENTRIES);
    }
    SectorOnDisk(v, disk, 0, e / ENTRIES);
  }

  /** Sector by sector: a write inside the table puts the buffer at its place in every copy, and leaves
      all else. */
  lemma WrittenInside(v: Volume, disk: seq<Sector>, e: nat, value: Entry, i: nat, s: nat)
    requires Mounted(v, disk) && e / ENTRIES < v.perFat && i < v.copies && s < v.perFat
    ensures Reaches(v, disk, e) && SectorOf(v, i, s) < |disk|
    ensures Written(v, disk, e, value)[SectorOf(v, i, s)] ==
            if s == e / ENTRIES then Buffer(v, disk, e, value) else disk[SectorOf(v, i, s)]
  {
    hide SectorOf;
    InsideReaches(v, disk, e);
    SectorOnDisk(v, disk, i, s);
    WrittenSectors(v, disk, e, value);
    if s != e / ENTRIES {
      forall j | 0 <= j < v.copies
        ensures SectorOf(v, j, e / ENTRIES) != SectorOf(v, i, s)
      {
        if SectorOf(v, j, e / ENTRIES) == SectorOf(v, i, s) {
          SectorsDiffer(v, j, e / ENTRIES, i, s);
        }
      }
    }
  }

  // ---- the flat map ----

  /** The first copy as one sequence of entries. */
  function Flat(v: Volume, disk: seq<Sector>): (r: seq<Entry>)
    requires Mounted(v, disk)
    ensures |r| == v.perFat * ENTRIES
  {
    seq(v.perFat * ENTRIES, e requires 0 <= e < v.perFat * ENTRIES =>
      (SectorOnDisk(v, disk, 0, e / ENTRIES); EntryOf(v, disk, e)))
  }

  /** A write inside the table is one update of the flat map, keeps identical copies identical and
      touches no sector outside the table. */
  lemma WriteRefinesFlat(v: Volume, disk: seq<Sector>, e: nat, value: Entry)
    requires Mounted(v, disk) && e < v.perFat * ENTRIES
    ensures Reaches(v, disk, e)
    ensures var r := Written(v, disk, e, value);
            && Mounted(v, r)
            && Flat(v, r) == Flat(v, disk)[e := Patched(Flat(v, disk)[e], value)]
            && (Identical(v, disk) ==> Identical(v, r))
            && (forall k :: 0 <= k < |disk| && (k < v.first || k >= v.first + v.perFat * v.copies) ==> r[k] == disk[k])
  {
    hide SectorOf;
    InsideReaches(v, disk, e);
    WrittenSectors(v, disk, e, value);
    var r := Written(v, disk, e, value);
    forall x | 0 <= x < v.perFat * ENTRIES
      ensures Flat(v, r)[x] == if x == e then Patched(Flat(v, disk)[e], value) else Flat(v, disk)[x]
    {
      WrittenInside(v, disk, e, value, 0, x / ENTRIES);
      assert x == x / ENTRIES * ENTRIES + x % ENTRIES && e == e / ENTRIES * ENTRIES + e % ENTRIES;
    }
    if Identical(v, disk) {
      forall i, s | 0 <= i < v.copies && 0 <= s < v.perFat
        ensures SectorOf(v, i, s) < |r| && SectorOf(v, 0, s) < |r| && r[SectorOf(v, i, s)] == r[SectorOf(v, 0, s)]
      {
        WrittenInside(v, disk, e, value, i, s);
        WrittenInside(v, disk, e, value, 0, s);
      }
    }
    forall k | 0 <= k < |disk| && (k < v.first || k >= v.first + v.perFat * v.copies)
      ensures r[k] == disk[k]
    {
      forall i | 0 <= i < v.copies
        ensures SectorOf(v, i, e / ENTRIES) != k
      {
        InTable(v, i, e / ENTRIES);
      }
    }
  }

  lemma InTable(v: Volume, i: nat, s: nat)
    requires i < v.copies && s < v.perFat
    ensures v.first <= SectorOf(v, i, s) < v.first + v.perFat * v.copies
  {
    assert v.perFat * v.copies >= v.perFat * (i + 1);
  }

  // ---- sequences of writes ----

  datatype Update = Update(entry: nat, value: Entry)

  ghost predicate Inside(v: Volume, updates: seq<Update>) {
    forall i :: 0 <= i < |updates| ==> updates[i].entry < v.perFat * ENTRIES
  }

  ghost function WrittenAll(v: Volume, disk: seq<Sector>, updates: seq<Update>): (r: seq<Sector>)
    requires Mounted(v, disk) && Inside(v, updates)
    ensures Mounted(v, r)
  {
    if updates == [] then disk
    else
      var n := |updates| - 1;
      var d := WrittenAll(v, disk, updates[..n]);
      WriteRefinesFlat(v, d, updates[n].entry, updates[n].value);
      Written(v, d, updates[n].entry, updates[n].value)
  }

  /** The value last written to an entry, or what it held at first, modulo 2^28. */
  function LastValue(first: Entry, updates: seq<Update>, e: nat): nat {
    if updates == [] then first % TOP
    else if updates[|updates| - 1].entry == e then updates[|updates| - 1].value % TOP
    else LastValue(first, updates[..|updates| - 1], e)
  }

  /** Over any sequence of writes: every entry reads as the value last written to it, its reserved top
      bits never change, identical copies stay identical, and nothing outside the table changes. */
  lemma {:induction false} TableIsAMap(v: Volume, disk: seq<Sector>, updates: seq<Update>, e: nat)
    requires Mounted(v, disk) && Inside(v, updates) && e < v.perFat * ENTRIES
    ensures var r := WrittenAll(v, disk, updates);
            && |r| == |disk|
            && Flat(v, r)[e] % TOP == LastValue(Flat(v, disk)[e], updates, e)
            && Flat(v, r)[e] / TOP == Flat(v, disk)[e] / TOP
            && (Identical(v, disk) ==> Identical(v, r))
            && (forall k :: 0 <= k < |disk| && (k < v.first || k >= v.first + v.perFat * v.copies) ==> r[k] == disk[k])
  {
    if updates != [] {
      hide Flat, Identical, Mounted, Patched, Written;
      var n := |updates| - 1;
      TableIsAMap(v, disk, updates[..n], e);
      var d := WrittenAll(v, disk, updates[..n]);
      WriteRefinesFlat(v, d, updates[n].entry, updates[n].value);
      PatchedBits(Flat(v, d)[updates[n].entry], updates[n].value);
    }
  }

  // ---- outside the table ----

  /** An entry beyond one copy lands in the next ones: the copies stay identical exactly when the entry
      is inside the table, or beyond all its copies, or the write changes nothing. */
  lemma IdenticalIffInside(v: Volume, disk: seq<Sector>, e: nat, value: Entry)
    requires Mounted(v, disk) && Identical(v, disk) && Reaches(v, disk, e)
    ensures Identical(v, Written(v, disk, e, value)) <==>
              || e / ENTRIES < v.perFat
              || e / ENTRIES >= v.perFat * v.copies
              || EntryOf(v, disk, e) == Patched(EntryOf(v, disk, e), value)
  {
    hide SectorOf;
    if e / ENTRIES < v.perFat {
      WriteRefinesFlat(v, disk, e, value);
    } else if e / ENTRIES >= v.perFat * v.copies {
      BeyondAllCopies(v, disk, e, value);
    } else {
      InALaterCopy(v, disk, e, value);
    }
  }

  lemma InALaterCopy(v: Volume, disk: seq<Sector>, e: nat, value: Entry)
    requires Mounted(v, disk) && Identical(v, disk) && Reaches(v, disk, e)
    requires v.perFat <= e / ENTRIES < v.perFat * v.copies
    ensures Identical(v, Written(v, disk, e, value)) <==> EntryOf(v, disk, e) == Patched(EntryOf(v, disk, e), value)
  {
    hide SectorOf;
    var s, r, buf := e / ENTRIES, Written(v, disk, e, value), Buffer(v, disk, e, value);
    WrittenSectors(v, disk, e, value);
    var i, t := s / v.perFat, s % v.perFat;
    Divides(v, s);
    LandsInCopy(v, i, t, s);
    SectorOnDisk(v, disk, i, t);
    SectorOnDisk(v, disk, 0, t);
    assert r[SectorOf(v, i, t)] == buf;
    forall j | 0 <= j < v.copies
      ensures SectorOf(v, j, s) != SectorOf(v, 0, t)
    {
      Beyond(v, j, s, t);
    }
    assert r[SectorOf(v, 0, t)] == disk[SectorOf(v, 0, t)] == disk[SectorOf(v, i, t)];
    if EntryOf(v, disk, e) == Patched(EntryOf(v, disk, e), value) {
      NothingChanges(v, disk, e, value, i, t);
    } else {
      assert buf[e % ENTRIES] != disk[SectorOf(v, 0, t)][e % ENTRIES];
    }
  }

  lemma BeyondAllCopies(v: Volume, disk: seq<Sector>, e: nat, value: Entry)
    requires Mounted(v, disk) && Identical(v, disk) && Reaches(v, disk, e) && e / ENTRIES >= v.perFat * v.copies
    ensures Identical(v, Written(v, disk, e, value))
  {
    hide SectorOf;
    var r := Written(v, disk, e, value);
    WrittenSectors(v, disk, e, value);
    forall i, t | 0 <= i < v.copies && 0 <= t < v.perFat
      ensures SectorOf(v, i, t) < |r| && r[SectorOf(v, i, t)] == disk[SectorOf(v, i, t)]
    {
      SectorOnDisk(v, disk, i, t);
      InTable(v, i, t);
      forall j | 0 <= j < v.copies
        ensures SectorOf(v, j, e / ENTRIES) != SectorOf(v, i, t)
      {
        PastTheTable(v, j, e / ENTRIES);
      }
    }
    forall i, t | 0 <= i < v.copies && 0 <= t < v.perFat
      ensures SectorOf(v, 0, t) < |r| && r[SectorOf(v, i, t)] == r[SectorOf(v, 0, t)]
    {
      SectorOnDisk(v, disk, i, t);
      SectorOnDisk(v, disk, 0, t);
    }
  }

  lemma PastTheTable(v: Volume, j: nat, s: nat)
    requires s >= v.perFat * v.copies
    ensures SectorOf(v, j, s) >= v.first + v.perFat * v.copies
  {
    assert v.perFat * j >= 0;
  }

  /** Two copies of one sector each: entry 128 lies in the second copy, and writing to it parts them. */
  lemma CopiesPart() returns (v: Volume, disk: seq<Sector>)
    ensures v == Volume(0, 1, 2) && |disk| == 3
    ensures Mounted(v, disk) && Identical(v, disk) && Reaches(v, disk, 128)
    ensures !Identical(v, Written(v, disk, 128, 5))
  {
    hide Identical, Written, Buffer;
    v := Volume(0, 1, 2);
    disk := seq(3, _ => seq(ENTRIES, _ => 0));
    assert 128 / ENTRIES == 1 && 128 % ENTRIES == 0;
    SameSectors(v, disk, seq(ENTRIES, _ => 0));
    assert EntryOf(v, disk, 128) == 0 && Patched(0, 5) == 5;
    IdenticalIffInside(v, disk, 128, 5);
  }

  lemma SameSectors(v: Volume, disk: seq<Sector>, sector: Sector)
    requires forall k :: 0 <= k < |disk| ==> disk[k] == sector
    ensures Identical(v, disk)
  {
    hide SectorOf;
  }

  lemma Divides(v: Volume, s: nat)
    requires 0 < v.perFat <= s < v.perFat * v.copies
    ensures var i, t := s / v.perFat, s % v.perFat;
            0 < i < v.copies && t < v.perFat && s == v.perFat * i + t
  {
    var i := s / v.perFat;
    if i >= v.copies {
      Scaled(v.perFat, v.copies, i);
    }
    Scaled(v.perFat, i, 0);
  }

  lemma Scaled(p: nat, a: nat, b: nat)
    ensures a <= b ==> p * a <= p * b
  {
  }

  lemma LandsInCopy(v: Volume, i: nat, t: nat, s: nat)
    requires s == v.perFat * i + t
    ensures SectorOf(v, 0, s) == SectorOf(v, i, t)
  {
  }

  lemma Beyond(v: Volume, j: nat, s: nat, t: nat)
    requires t < v.perFat <= s
    ensures SectorOf(v, j, s) != SectorOf(v, 0, t)
  {
    assert v.perFat * j >= 0;
  }

  /** A buffer that is what it was leaves every copy it reaches as it is. */
  lemma NothingChanges(v: Volume, disk: seq<Sector>, e: nat, value: Entry, i: nat, t: nat)
    requires Mounted(v, disk) && Identical(v, disk) && Reaches(v, disk, e)
    requires 0 < i < v.copies && t < v.perFat && e / ENTRIES == v.perFat * i + t
    requires EntryOf(v, disk, e) == Patched(EntryOf(v, disk, e), value)
    ensures Identical(v, Written(v, disk, e, value))
  {
    hide SectorOf;
    var r, buf := Written(v, disk, e, value), Buffer(v, disk, e, value);
    WrittenSectors(v, disk, e, value);
    LandsInCopy(v, i, t, e / ENTRIES);
    SectorOnDisk(v, disk, i, t);
    SectorOnDisk(v, disk, 0, t);
    assert buf == disk[SectorOf(v, i, t)] == disk[SectorOf(v, 0, t)];
    forall j, s | 0 <= j < v.copies && 0 <= s < v.perFat
      ensures SectorOf(v, j, s) < |r| && r[SectorOf(v, j, s)] == disk[SectorOf(v, j, s)]
    {
      SectorOnDisk(v, disk, j, s);
      if l :| 0 <= l < v.copies && SectorOf(v, l, e / ENTRIES) == SectorOf(v, j, s) {
        Shifted(v, l, i, t, e / ENTRIES);
        SectorsDiffer(v, l + i, t, j, s);
        assert r[SectorOf(v, j, s)] == buf;
      }
    }
    forall j, s | 0 <= j < v.copies && 0 <= s < v.perFat
      ensures SectorOf(v, 0, s) < |r| && r[SectorOf(v, j, s)] == r[SectorOf(v, 0, s)]
    {
      SectorOnDisk(v, disk, j, s);
      SectorOnDisk(v, disk, 0, s);
    }
  }

  lemma Shifted(v: Volume, l: nat, i: nat, t: nat, s: nat)
    requires s == v.perFat * i + t
    ensures SectorOf(v, l, s) == SectorOf(v, l + i, t)
  {
    assert v.perFat * (l + i) == v.perFat * l + v.perFat * i;
  }
}
