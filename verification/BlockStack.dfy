/**
 internal/collect/blockstack.go: the whole disks a filesystem is stored on, found by walking sysfs down through
 partitions and stacked devices. The tree may be broken: links may lead nowhere, or round in a circle.
 */
module BlockStack {
  import opened Options
  import opened Bytes
  import opened Sorting
  import opened Sequences

  const MAX_DISKS: nat := 8
  const MAX_DEPTH: nat := 8

  type Path = string

  /**
   What sysfs shows of a directory: whether it is a partition, the directory above it, where the links in its slaves/
   lead (None when one cannot be resolved), its last name, and whether a disk of that name has a device.
   */
  datatype Sysfs = Sysfs(partition: Path -> bool, above: Path -> Path, slaves: Path -> seq<Option<Path>>,
                         base: Path -> bytes, device: bytes -> bool, clip: bytes -> bytes)

  // ---- what is to be found --------------------------------------------------------------------------------------

  /** One step down: from a partition to its disk, from a stacked device to one it is built on. */
  predicate Link(s: Sysfs, from: Path, to: Path) {
    if s.partition(from) then to == s.above(from) else Some(to) in s.slaves(from)
  }

  /** Where the walk ends at a disk. */
  predicate IsDisk(s: Sysfs, d: Path) {
    !s.partition(d) && s.slaves(d) == [] && s.device(s.base(d))
  }

  /** A way down: each directory linked to the next. */
  predicate Way(s: Sysfs, way: seq<Path>) {
    way != [] && forall i | 0 <= i < |way| - 1 :: Link(s, way[i], way[i + 1])
  }

  /** A disk's name at the end of a way of at most `links` links. */
  ghost predicate Reachable(s: Sysfs, from: Path, links: nat, name: bytes) {
    exists way: seq<Path> ::
      Way(s, way) && way[0] == from && |way| - 1 <= links && IsDisk(s, way[|way| - 1]) && s.base(way[|way| - 1]) == name
  }

  // ---- the same, step by step -----------------------------------------------------------------------------------

  function Under(s: Sysfs, d: Path, links: nat): set<bytes>
    decreases links, 1, 0
  {
    if s.partition(d) then if links == 0 then {} else Under(s, s.above(d), links - 1)
    else if s.slaves(d) != [] then if links == 0 then {} else UnderAll(s, s.slaves(d), links - 1)
    else if s.device(s.base(d)) then {s.base(d)}
    else {}
  }

  function UnderAll(s: Sysfs, ds: seq<Option<Path>>, links: nat): set<bytes>
    decreases links, 2, |ds|
  {
    if ds == [] then {}
    else
      var d := ds[|ds| - 1];
      UnderAll(s, ds[..|ds| - 1], links) + if d.Some? then Under(s, d.value, links) else {}
  }

  lemma {:induction false} UnderAllMember(s: Sysfs, ds: seq<Option<Path>>, links: nat, name: bytes)
    ensures name in UnderAll(s, ds, links) <==> exists d: Path :: Some(d) in ds && name in Under(s, d, links)
    decreases |ds|
  {
    if ds != [] {
      var last, front := ds[|ds| - 1], ds[..|ds| - 1];
      assert ds == front + [last];
      UnderAllMember(s, front, links, name);
      forall d: Path ensures Some(d) in ds <==> Some(d) in front || Some(d) == last {
      }
      if last.Some? && name in Under(s, last.value, links) {
        assert Some(last.value) in ds;
      }
    }
  }

  lemma UnderCases(s: Sysfs, d: Path, links: nat)
    ensures s.partition(d) ==> Under(s, d, links) == if links == 0 then {} else Under(s, s.above(d), links - 1)
    ensures !s.partition(d) && s.slaves(d) != [] ==>
              Under(s, d, links) == if links == 0 then {} else UnderAll(s, s.slaves(d), links - 1)
    ensures !s.partition(d) && s.slaves(d) == [] ==>
            Under(s, d, links) == if s.device(s.base(d)) then {s.base(d)} else {}
  {
  }

  lemma UnderStep(s: Sysfs, d: Path, links: nat, name: bytes)
    ensures name in Under(s, d, links) <==>
              (IsDisk(s, d) && name == s.base(d)) ||
                (links > 0 && exists to :: Link(s, d, to) && name in Under(s, to, links - 1))
  {
    if s.partition(d) {
      if links > 0 {
        assert Link(s, d, s.above(d));
      }
    } else if s.slaves(d) != [] {
      if links > 0 {
        UnderAllMember(s, s.slaves(d), links - 1, name);
        if name in Under(s, d, links) {
          var to: Path :| Some(to) in s.slaves(d) && name in Under(s, to, links - 1);
          assert Link(s, d, to);
        }
        if exists to :: Link(s, d, to) && name in Under(s, to, links - 1) {
          var to :| Link(s, d, to) && name in Under(s, to, links - 1);
          assert Some(to) in s.slaves(d);
        }
      }
    }
  }

  lemma WayTail(s: Sysfs, way: seq<Path>)
    requires Way(s, way) && |way| > 1
    ensures Way(s, way[1..]) && Link(s, way[0], way[1])
  {
    forall i | 0 <= i < |way| - 2 ensures Link(s, way[1..][i], way[1..][i + 1]) {
      assert Link(s, way[i + 1], way[i + 2]);
    }
  }

  lemma WayCons(s: Sysfs, d: Path, way: seq<Path>)
    requires Way(s, way) && Link(s, d, way[0])
    ensures Way(s, [d] + way)
  {
    var more := [d] + way;
    forall i | 0 <= i < |more| - 1 ensures Link(s, more[i], more[i + 1]) {
      if i > 0 {
        assert Link(s, way[i - 1], way[i]);
      }
    }
  }

  lemma DiskAhead(s: Sysfs, d: Path, to: Path, links: nat, name: bytes)
    requires Link(s, d, to) && Reachable(s, to, links, name)
    ensures Reachable(s, d, links + 1, name)
  {
    hide Link, IsDisk;
    var way :| Way(s, way) && way[0] == to && |way| - 1 <= links && IsDisk(s, way[|way| - 1]) &&
      s.base(way[|way| - 1]) == name;
    WayCons(s, d, way);
    var more := [d] + way;
    assert more[|more| - 1] == way[|way| - 1];
  }

  /** The step-by-step set is exactly what can be reached within so many links. */
  lemma {:induction false} UnderIsReachable(s: Sysfs, d: Path, links: nat, name: bytes)
    ensures name in Under(s, d, links) <==> Reachable(s, d, links, name)
    decreases links
  {
    hide Link, IsDisk, Under;
    UnderStep(s, d, links, name);
    if name in Under(s, d, links) {
      if IsDisk(s, d) && name == s.base(d) {
        assert Way(s, [d]) && [d][|[d]| - 1] == d;
      } else {
        var to :| Link(s, d, to) && name in Under(s, to, links - 1);
        UnderIsReachable(s, to, links - 1, name);
        DiskAhead(s, d, to, links - 1, name);
      }
    }
    if Reachable(s, d, links, name) {
      var way :| Way(s, way) && way[0] == d && |way| - 1 <= links && IsDisk(s, way[|way| - 1]) &&
        s.base(way[|way| - 1]) == name;
      if |way| > 1 {
        WayTail(s, way);
        var rest := way[1..];
        assert rest[|rest| - 1] == way[|way| - 1];
        assert Reachable(s, way[1], links - 1, name);
        UnderIsReachable(s, way[1], links - 1, name);
      }
    }
  }

  // ---- the walk -------------------------------------------------------------------------------------------------

  function Names(s: seq<bytes>): set<bytes> {
    set n | n in s
  }

  class Walker {
    const sys: Sysfs
    var seen: set<bytes>
    var out: seq<bytes>
    ghost var names: seq<bytes>

    ghost predicate Valid()
      reads this
    {
      Distinct(names) && seen == Names(names) && out == Clipped(sys, names) && |names| <= MAX_DISKS
    }

    constructor (s: Sysfs)
      ensures Valid() && sys == s && names == []
    {
      sys, seen, out, names := s, {}, [], [];
    }

    /** Everything below a directory is found, unless there are too many disks; and nothing else. */
    method Walk(dir: Path, depth: nat)
      requires Valid() && depth <= MAX_DEPTH + 1
      modifies this
      ensures Valid() && old(names) <= names
      ensures depth > MAX_DEPTH ==> names == old(names)
      ensures depth <= MAX_DEPTH ==> Names(names) <= Names(old(names)) + Under(sys, dir, MAX_DEPTH - depth)
      ensures depth <= MAX_DEPTH && |names| < MAX_DISKS ==>
              Names(names) == Names(old(names)) + Under(sys, dir, MAX_DEPTH - depth)
      decreases MAX_DEPTH + 1 - depth, 0
    {
      hide Under, UnderAll, Names, Clipped, Distinct;
      if depth > MAX_DEPTH || |out| >= MAX_DISKS {
        return;
      }
      UnderCases(sys, dir, MAX_DEPTH - depth);
      if sys.partition(dir) {
        Walk(sys.above(dir), depth + 1);
        return;
      }
      var slaves := sys.slaves(dir);
      if |slaves| > 0 {
        WalkSlaves(slaves, depth);
        return;
      }
      AddDisk(sys.base(dir));
    }

    method AddDisk(name: bytes)
      requires Valid() && |out| < MAX_DISKS
      modifies this
      ensures Valid() && old(names) <= names
      ensures Names(names) == Names(old(names)) + if sys.device(name) then {name} else {}
    {
      hide Clipped;
      if name !in seen && sys.device(name) {
        seen := seen + {name};
        out := out + [sys.clip(name)];
        ClippedSnoc(sys, names, name);
        assert Names(names + [name]) == Names(names) + {name};
        names := names + [name];
      }
    }

    method WalkSlaves(slaves: seq<Option<Path>>, depth: nat)
      requires Valid() && depth <= MAX_DEPTH
      modifies this
      ensures Valid() && old(names) <= names
      ensures depth == MAX_DEPTH ==> names == old(names)
      ensures depth < MAX_DEPTH ==> Names(names) <= Names(old(names)) + UnderAll(sys, slaves, MAX_DEPTH - depth - 1)
      ensures depth < MAX_DEPTH && |names| < MAX_DISKS ==>
                Names(names) == Names(old(names)) + UnderAll(sys, slaves, MAX_DEPTH - depth - 1)
      decreases MAX_DEPTH + 1 - depth, 0, |slaves|
    {
      hide Under;
      var i := 0;
      while i < |slaves|
        invariant 0 <= i <= |slaves| && Valid() && old(names) <= names
        invariant depth == MAX_DEPTH ==> names == old(names)
        invariant depth < MAX_DEPTH ==>
                  Names(names) <= Names(old(names)) + UnderAll(sys, slaves[..i], MAX_DEPTH - depth - 1)
        invariant depth < MAX_DEPTH && |names| < MAX_DISKS ==>
                    Names(names) == Names(old(names)) + UnderAll(sys, slaves[..i], MAX_DEPTH - depth - 1)
      {
        assert slaves[..i + 1][..i] == slaves[..i];
        if slaves[i].Some? {
          Walk(slaves[i].value, depth + 1);
        }
        i := i + 1;
      }
      assert slaves[..i] == slaves;
    }
  }

  function Clipped(s: Sysfs, names: seq<bytes>): (r: seq<bytes>)
    ensures |r| == |names| && forall i | 0 <= i < |r| :: r[i] == s.clip(names[i])
  {
    if names == [] then [] else Clipped(s, names[..|names| - 1]) + [s.clip(names[|names| - 1])]
  }

  lemma NothingClipped(s: Sysfs)
    ensures Clipped(s, []) == [] && Distinct<bytes>([])
  {
  }

  lemma ClippedSnoc(s: Sysfs, names: seq<bytes>, n: bytes)
    ensures Clipped(s, names + [n]) == Clipped(s, names) + [s.clip(n)]
  {
    assert (names + [n])[..|names|] == names;
  }

  /**
   The disks under a device, in order: no name twice, none that cannot be reached within eight links, and all of them,
   or eight when there are more.
   */
  method WholeDisksFrom(sys: Sysfs, start: Option<Path>) returns (r: seq<bytes>, ghost names: seq<bytes>)
    ensures start.None? ==> r == []
    ensures Distinct(names) && |names| <= 8 && r == Sort(BytesLeq, Clipped(sys, names)) && SortedBy(BytesLeq, r)
    ensures (forall n | n in names :: sys.clip(n) == n) ==> Distinct(r) && Names(r) == Names(names)
    ensures start.Some? ==> forall n | n in names :: Reachable(sys, start.value, 8, n)
    ensures start.Some? && |names| < 8 ==> forall n | Reachable(sys, start.value, 8, n) :: n in names
    ensures start.Some? ==> |names| == Least(|Under(sys, start.value, 8)|, 8)
  {
    hide Under, Reachable, Sort, BytesLeq, Clipped, Distinct, Orders, SortedBy;
    BytesOrder();
    if start.None? {
      r, names := [], [];
      NothingClipped(sys);
      SortSorted(BytesLeq, r);
      assert Sort(BytesLeq, r) == r;
      return;
    }
    var w := new Walker(sys);
    w.Walk(start.value, 0);
    r := Sort(BytesLeq, w.out);
    names := w.names;
    SortSorted(BytesLeq, w.out);
    forall n ensures n in Under(sys, start.value, MAX_DEPTH) <==> Reachable(sys, start.value, MAX_DEPTH, n) {
      UnderIsReachable(sys, start.value, MAX_DEPTH, n);
    }
    TooManyDisks(sys, start.value, names, Under(sys, start.value, MAX_DEPTH));
    assert forall n :: n in names <==> n in Names(names);
    if forall n | n in names :: sys.clip(n) == n {
      assert Clipped(sys, names) == names;
      Rearranged(names, r);
    }
  }

  /** When there are more disks than the limit, exactly as many as the limit are named. */
  lemma TooManyDisks(sys: Sysfs, start: Path, names: seq<bytes>, all: set<bytes>)
    requires Distinct(names) && |names| <= MAX_DISKS && (forall n :: n in all <==> Reachable(sys, start, MAX_DEPTH, n))
    requires forall n | n in names :: n in all
    requires |names| < MAX_DISKS ==> forall n | n in all :: n in names
    ensures |names| == Least(|all|, MAX_DISKS)
  {
    hide Reachable;
    DistinctIsSet(Names(names), names);
    assert |multiset(names)| == |names| && |multiset(Names(names))| == |Names(names)|;
    SubsetSize(Names(names), all);
    if |names| < MAX_DISKS {
      assert Names(names) == all;
    }
  }

  // ---- device numbers -------------------------------------------------------------------------------------------

  /** A Linux dev_t split into major and minor. */
  function DevNumbers(dev: bv64): (bv64, bv64) {
    (((dev >> 8) & 0xfff) | ((dev >> 32) & 0xfffff000), (dev & 0xff) | ((dev >> 12) & 0xffffff00))
  }

  /** The dev_t of a major and a minor, as the C library packs them. */
  function MakeDev(major: bv64, minor: bv64): bv64 {
    ((major & 0xfff) << 8) | ((major & 0xfffff000) << 32) | (minor & 0xff) | ((minor & 0xffffff00) << 12)
  }

  /** Splitting loses nothing, and packing 32-bit numbers can be undone. */
  lemma DevRoundTrip(dev: bv64, major: bv64, minor: bv64)
    requires major <= 0xffff_ffff && minor <= 0xffff_ffff
    ensures MakeDev(DevNumbers(dev).0, DevNumbers(dev).1) == dev
    ensures DevNumbers(MakeDev(major, minor)) == (major, minor)
  {
  }
}
