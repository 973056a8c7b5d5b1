/** Whole runs of directory updates, and what can still be published. */
module FsRuns {
  import opened Bytes
  import opened FsSpec
  import opened FsTheorems

  /** Only a successful write or publication changes the directory; every other call,
      and every call that fails before its directory write, is `Unchanged`. */
  datatype Event =
    | Unchanged
    | Wrote(name: Name, len: u32)
    | Reserved(image: Image)
    | Published(name: Name, image: Image)

  ghost predicate Enabled(es: seq<Entry>, r: Region, e: Event) {
    match e
    case Unchanged => true
    case Wrote(n, len) =>
      ValidDir(es, r) && GoodName(n) && len <= FS_MAX_LEN && PlanWrite(es, r, n, len).Ok?
    case Reserved(image) =>
      ValidDir(es, r) && CanReserve(es, r, image)
    case Published(n, image) =>
      ValidDir(es, r) && Publishable(es, r, n, image)
  }

  ghost function After(es: seq<Entry>, r: Region, e: Event): seq<Entry>
    requires Enabled(es, r, e)
  {
    match e
    case Unchanged => es
    case Wrote(n, len) =>
      var p := PlanWrite(es, r, n, len).value;
      PlanInside(es, r, n, len, p);
      DirAfterWrite(es, p, n, len)
    case Reserved(_) => es
    case Published(n, image) => DirAfterPublish(es, n, image)
  }

  ghost predicate IsRun(es: seq<Entry>, r: Region, run: seq<Event>)
    decreases |run|
  {
    run != [] ==> Enabled(es, r, run[0]) && IsRun(After(es, r, run[0]), r, run[1..])
  }

  ghost function Final(es: seq<Entry>, r: Region, run: seq<Event>): seq<Entry>
    requires IsRun(es, r, run)
    decreases |run|
  {
    if run == [] then es else Final(After(es, r, run[0]), r, run[1..])
  }

  // ----- validity over runs -----

  /** Valid, and byte 23 of every empty slot's name is NUL. */
  ghost predicate CleanDir(es: seq<Entry>, r: Region) {
    ValidDir(es, r) && forall i | 0 <= i < |es| && !es[i].Used() :: es[i].raw[23] == 0
  }

  lemma WriteKeepsClean(es: seq<Entry>, r: Region, n: Name, len: u32)
    requires CleanDir(es, r) && Enabled(es, r, Wrote(n, len))
    ensures CleanDir(After(es, r, Wrote(n, len)), r)
  {
    WriteKeepsDirValid(es, r, n, len, PlanWrite(es, r, n, len).value);
  }

  /** A directory that starts clean is accepted by validation after every run. */
  lemma {:induction false} RunKeepsValid(es: seq<Entry>, r: Region, run: seq<Event>)
    requires CleanDir(es, r) && IsRun(es, r, run)
    ensures CleanDir(Final(es, r, run), r)
    decreases |run|
  {
    if run != [] {
      match run[0] {
        case Unchanged =>
        case Reserved(_) =>
        case Wrote(n, len) => WriteKeepsClean(es, r, n, len);
        case Published(n, image) => PublishKeepsDirValid(es, r, n, image);
      }
      RunKeepsValid(After(es, r, run[0]), r, run[1..]);
    }
  }

  // ----- exclusivity of reservations -----

  predicate Overlap(a: Image, b: Image) {
    a.start < b.start + b.sectors && b.start < a.start + a.sectors
  }

  /** What survives in slot `k` once `image` has been published there. */
  ghost predicate Holds(es: seq<Entry>, k: nat, image: Image) {
    && k < |es| && image.start <= es[k].start
    && (512 * image.sectors > FS_MAX_LEN ==> es[k].start == image.start && es[k].count == 512 * image.sectors)
  }

  lemma HoldsAfter(es: seq<Entry>, r: Region, e: Event, k: nat, image: Image)
    requires image.start > 0 && image.sectors <= MAX_IMAGE_SECTORS
    requires Enabled(es, r, e) && Holds(es, k, image)
    ensures Holds(After(es, r, e), k, image)
  {
    if e.Wrote? {
      var p := PlanWrite(es, r, e.name, e.len).value;
      PlanInside(es, r, e.name, e.len, p);
      NextFreeBounds(es, r.dir + 1);
      assert es[k].Used() && es[k].End() <= NextFree(es, r.dir + 1);
    }
  }

  lemma {:induction false} HoldsForEver(es: seq<Entry>, r: Region, run: seq<Event>, k: nat, image: Image)
    requires image.start > 0 && image.sectors <= MAX_IMAGE_SECTORS
    requires IsRun(es, r, run) && Holds(es, k, image)
    ensures Holds(Final(es, r, run), k, image)
    decreases |run|
  {
    if run != [] {
      HoldsAfter(es, r, run[0], k, image);
      HoldsForEver(After(es, r, run[0]), r, run[1..], k, image);
    }
  }

  /** Once one of two overlapping reservations is published, the other can never be, whatever
      happens in between, if the published image is too large for `fs_write` to touch or the
      other does not start after it. */
  lemma AtMostOnePublished(es: seq<Entry>, r: Region, n: Name, a: Image, run: seq<Event>, m: Name, b: Image)
    requires ValidDir(es, r) && Publishable(es, r, n, a)
    requires IsRun(DirAfterPublish(es, n, a), r, run)
    requires Overlap(a, b) && (512 * a.sectors > FS_MAX_LEN || b.start <= a.start)
    ensures !Publishable(Final(DirAfterPublish(es, n, a), r, run), r, m, b)
  {
    var es', k := DirAfterPublish(es, n, a), FirstFree(es);
    NextFreeBounds(es, r.dir + 1);
    HoldsForEver(es', r, run, k, a);
    HoldsBlocks(Final(es', r, run), r, k, a, m, b);
  }

  lemma HoldsBlocks(es: seq<Entry>, r: Region, k: nat, a: Image, m: Name, b: Image)
    requires a.start > 0 && Holds(es, k, a)
    requires Overlap(a, b) && (512 * a.sectors > FS_MAX_LEN || b.start <= a.start)
    ensures !Publishable(es, r, m, b)
  {
    NextFreeBounds(es, r.dir + 1);
    assert es[k].Used() && es[k].End() <= NextFree(es, r.dir + 1);
  }

  /** Otherwise it can: saving an ordinary file of the right length over the published image
      gives back its tail, and the second reservation is then accepted. */
  lemma ShrinkingFreesReservation(es: seq<Entry>, r: Region, n: Name, a: Image, m: Name, b: Image)
    returns (run: seq<Event>)
    requires ValidDir(es, r) && Publishable(es, r, n, a)
    requires Overlap(a, b) && 512 * a.sectors <= FS_MAX_LEN && a.start < b.start
    requires GoodName(m) && 0 < b.sectors <= MAX_IMAGE_SECTORS && b.start + b.sectors <= r.limit
    requires Find(DirAfterPublish(es, n, a), m) < 0 && FirstFree(DirAfterPublish(es, n, a)) >= 0
    ensures IsRun(DirAfterPublish(es, n, a), r, run)
    ensures Publishable(Final(DirAfterPublish(es, n, a), r, run), r, m, b)
  {
    var es', k := DirAfterPublish(es, n, a), FirstFree(es);
    NextFreeBounds(es, r.dir + 1);
    PublishKeepsDirValid(es, r, n, a);
    PublishedEntryReads(n, a);
    FindIs(es', r, k, n);
    var len := 512 * (b.start - a.start);
    var p := PlanWrite(es', r, n, len).value;
    assert p == Plan(k, a.start, b.start - a.start);
    run := [Wrote(n, len)];
    var end := DirAfterWrite(es', p, n, len);
    assert IsRun(end, r, run[1..]);
    assert Final(es', r, run) == end;
    RenamedReads(es'[k].raw, n);
    ShrunkDirectory(es', end, r, k, n, m, b);
  }

  /** Shrinking the topmost file lowers the first free sector to its new end. */
  lemma ShrunkDirectory(es: seq<Entry>, end: seq<Entry>, r: Region, k: nat, n: Name, m: Name, b: Image)
    requires k < |es| == |end| && (forall i | 0 <= i < |es| && i != k :: end[i] == es[i])
    requires Matches(es[k], n) && Matches(end[k], n) && end[k].End() == b.start > r.dir + 1
    requires forall i | 0 <= i < |es| && i != k && es[i].Used() :: es[i].End() <= b.start
    requires GoodName(m) && 0 < b.sectors <= MAX_IMAGE_SECTORS && b.start + b.sectors <= r.limit
    requires Find(es, m) < 0 && FirstFree(es) >= 0
    ensures Publishable(end, r, m, b)
  {
    assert !Matches(es[k], m);
    assert forall i | 0 <= i < |end| && i != k :: !Matches(es[i], m) && !Matches(end[i], m);
    assert !end[FirstFree(es)].Used();
    NextFreeBounds(end, r.dir + 1);
  }

  /** Some run from here leads to a directory in which `b` can be published as `m`. */
  ghost predicate CanStillPublish(es: seq<Entry>, r: Region, m: Name, b: Image) {
    exists run :: PublishableAfter(es, r, run, m, b)
  }

  ghost predicate PublishableAfter(es: seq<Entry>, r: Region, run: seq<Event>, m: Name, b: Image) {
    IsRun(es, r, run) && Publishable(Final(es, r, run), r, m, b)
  }

  /** Everything publication asks for except that the image begins at the first free sector. */
  predicate Acceptable(es: seq<Entry>, r: Region, m: Name, b: Image) {
    && GoodName(m) && 0 < b.sectors <= MAX_IMAGE_SECTORS && b.start + b.sectors <= r.limit
    && Find(es, m) < 0 && FirstFree(es) >= 0
  }

  /** A used slot stays used, under the same name. */
  lemma SlotStays(es: seq<Entry>, r: Region, e: Event, k: nat)
    requires Enabled(es, r, e) && k < |es| && es[k].Used()
    ensures |After(es, r, e)| == |es|
    ensures After(es, r, e)[k].Used() && CStr(After(es, r, e)[k].raw) == CStr(es[k].raw)
  {
    if e.Wrote? {
      var p := PlanWrite(es, r, e.name, e.len).value;
      PlanInside(es, r, e.name, e.len, p);
      RenamedReads(es[p.slot].raw, e.name);
    }
  }

  lemma {:induction false} SlotStaysInRun(es: seq<Entry>, r: Region, run: seq<Event>, k: nat)
    requires IsRun(es, r, run) && k < |es| && es[k].Used()
    ensures |Final(es, r, run)| == |es|
    ensures Final(es, r, run)[k].Used() && CStr(Final(es, r, run)[k].raw) == CStr(es[k].raw)
    decreases |run|
  {
    if run != [] {
      SlotStays(es, r, run[0], k);
      SlotStaysInRun(After(es, r, run[0]), r, run[1..], k);
    }
  }

  /** What is not acceptable now will not become so: names and slots are never given back. */
  lemma StaysUnacceptable(es: seq<Entry>, r: Region, run: seq<Event>, m: Name, b: Image)
    requires es != [] && IsRun(es, r, run) && Acceptable(Final(es, r, run), r, m, b)
    ensures Acceptable(es, r, m, b)
  {
    if Find(es, m) >= 0 {
      SlotStaysInRun(es, r, run, Find(es, m));
    }
    if FirstFree(es) < 0 {
      SlotStaysInRun(es, r, run, 0);
      var k := FirstFree(Final(es, r, run));
      SlotStaysInRun(es, r, run, k);
    }
  }

  /** The exact condition: of two overlapping reservations the second can still be published after
      the first if and only if it is acceptable in itself, and the first is no larger than an
      ordinary file and starts earlier. */
  lemma SecondPublicationIff(es: seq<Entry>, r: Region, n: Name, a: Image, m: Name, b: Image)
    requires ValidDir(es, r) && Publishable(es, r, n, a) && Overlap(a, b)
    ensures CanStillPublish(DirAfterPublish(es, n, a), r, m, b)
       <==> 512 * a.sectors <= FS_MAX_LEN && a.start < b.start && Acceptable(DirAfterPublish(es, n, a), r, m, b)
  {
    var es' := DirAfterPublish(es, n, a);
    if 512 * a.sectors <= FS_MAX_LEN && a.start < b.start && Acceptable(es', r, m, b) {
      var run := ShrinkingFreesReservation(es, r, n, a, m, b);
      assert PublishableAfter(es', r, run, m, b);
    } else {
      forall run | IsRun(es', r, run)
        ensures !PublishableAfter(es', r, run, m, b)
      {
        if PublishableAfter(es', r, run, m, b) {
          StaysUnacceptable(es', r, run, m, b);
          AtMostOnePublished(es, r, n, a, run, m, b);
        }
      }
    }
  }

  // ----- both of two overlapping reservations -----

  /** The topmost file is in slot `k`: every other one ends before it starts. */
  ghost predicate Topmost(es: seq<Entry>, k: nat) {
    k < |es| && es[k].Used() && forall i | 0 <= i < |es| && i != k && es[i].Used() :: es[i].End() <= es[k].start
  }

  lemma TopmostEnds(es: seq<Entry>, base: nat, k: nat)
    requires Topmost(es, k) && base <= es[k].start
    ensures NextFree(es, base) == es[k].End()
  {
    NextFreeBounds(es, base);
  }

  /** Slot `k` now holds a file called `n`, and nothing else has changed. */
  ghost predicate Filled(es: seq<Entry>, es': seq<Entry>, k: nat, n: Name, start: nat, count: nat) {
    && k < |es| == |es'| && (forall i | 0 <= i < |es| && i != k :: es'[i] == es[i])
    && Matches(es'[k], n) && es'[k].start == start && es'[k].count == count
  }

  lemma SaveNew(es: seq<Entry>, r: Region, n: Name, len: u32) returns (k: nat)
    requires CleanDir(es, r) && GoodName(n) && Find(es, n) < 0 && FirstFree(es) >= 0 && len <= FS_MAX_LEN
    requires NextFree(es, r.dir + 1) + SectorsOf(len) <= r.limit
    ensures Enabled(es, r, Wrote(n, len)) && k == FirstFree(es)
    ensures var es' := After(es, r, Wrote(n, len));
            && CleanDir(es', r) && Filled(es, es', k, n, NextFree(es, r.dir + 1), len)
            && Topmost(es', k) && NextFree(es', r.dir + 1) == es'[k].End()
  {
    k := FirstFree(es);
    WriteKeepsClean(es, r, n, len);
    RenamedReads(es[k].raw, n);
    NextFreeBounds(es, r.dir + 1);
    TopmostEnds(After(es, r, Wrote(n, len)), r.dir + 1, k);
  }

  /** Saving a shorter version of the topmost file lowers the first free sector. */
  lemma SaveShorter(es: seq<Entry>, r: Region, k: nat, n: Name, len: u32)
    requires CleanDir(es, r) && GoodName(n) && k < |es| && Matches(es[k], n) && Topmost(es, k)
    requires es[k].count <= FS_MAX_LEN && len <= FS_MAX_LEN && SectorsOf(len) <= es[k].Sectors()
    ensures Enabled(es, r, Wrote(n, len))
    ensures var es' := After(es, r, Wrote(n, len));
            && CleanDir(es', r) && Filled(es, es', k, n, es[k].start, len)
            && NextFree(es', r.dir + 1) == es[k].start + SectorsOf(len)
  {
    FindIs(es, r, k, n);
    assert EntryOk(es[k], r);
    WriteKeepsClean(es, r, n, len);
    RenamedReads(es[k].raw, n);
    TopmostEnds(After(es, r, Wrote(n, len)), r.dir + 1, k);
  }

  lemma PublishNew(es: seq<Entry>, r: Region, n: Name, image: Image)
    requires CleanDir(es, r) && Publishable(es, r, n, image)
    ensures var es', k := DirAfterPublish(es, n, image), FirstFree(es);
            CleanDir(es', r) && Filled(es, es', k, n, image.start, 512 * image.sectors) && Topmost(es', k)
  {
    PublishKeepsDirValid(es, r, n, image);
    PublishedEntryReads(n, image);
    NextFreeBounds(es, r.dir + 1);
  }

  /** Filling one slot takes away one name and one slot. */
  lemma StillAbsent(es: seq<Entry>, es': seq<Entry>, k: nat, n: Name, start: nat, count: nat, m: Name)
    requires Filled(es, es', k, n, start, count) && Find(es, m) < 0 && m != n
    ensures Find(es', m) < 0
    ensures |EmptySlots(es')| == |EmptySlots(es)| - if es[k].Used() then 0 else 1
  {
    assert EmptySlots(es') == EmptySlots(es) - {k};
    assert forall i | 0 <= i < |es'| && i != k :: !Matches(es[i], m) && es'[i] == es[i];
  }

  lemma ConsRun(es: seq<Entry>, r: Region, e: Event, rest: seq<Event>)
    requires Enabled(es, r, e) && IsRun(After(es, r, e), r, rest)
    ensures IsRun(es, r, [e] + rest)
  {
    assert ([e] + rest)[1..] == rest;
  }

  /** The script: a file is saved past which `b` is reserved, then shortened, so that `a` is
      reserved from there; `a` is published, shortened, and then `b` is published as well. */
  function Script(x: Name, n: Name, a: Image, m: Name, b: Image): seq<Event> {
    [Wrote(x, 1024)] + ([Reserved(b)] + ([Wrote(x, 512)] + ([Reserved(a)] + PublishBoth(n, a, m, b))))
  }

  function PublishBoth(n: Name, a: Image, m: Name, b: Image): seq<Event> {
    [Published(n, a)] + ([Wrote(n, 512)] + ([Published(m, b)] + []))
  }

  lemma SecondPart(es: seq<Entry>, r: Region, n: Name, a: Image, m: Name, b: Image)
    requires CleanDir(es, r) && Publishable(es, r, n, a) && a.sectors == 2
    requires GoodName(m) && m != n && Find(es, m) < 0 && |EmptySlots(es)| >= 2
    requires b.start == a.start + 1 && b.sectors == 1
    ensures IsRun(es, r, PublishBoth(n, a, m, b))
  {
    var k := FirstFree(es);
    PublishNew(es, r, n, a);
    var es1 := DirAfterPublish(es, n, a);
    StillAbsent(es, es1, k, n, a.start, 1024, m);
    SaveShorter(es1, r, k, n, 512);
    var es2 := After(es1, r, Wrote(n, 512));
    StillAbsent(es1, es2, k, n, a.start, 512, m);
    SomeEmptySlot(es2);
    assert Publishable(es2, r, m, b);
    ConsRun(es2, r, Published(m, b), []);
    ConsRun(es1, r, Wrote(n, 512), [Published(m, b)] + []);
    ConsRun(es, r, Published(n, a), [Wrote(n, 512)] + ([Published(m, b)] + []));
  }

  /** Ready for the second part: room in the table, and neither name taken. */
  ghost predicate Roomy(es: seq<Entry>, r: Region, n: Name, m: Name) {
    CleanDir(es, r) && |EmptySlots(es)| >= 2 && Find(es, n) < 0 && Find(es, m) < 0
  }

  lemma SavedLonger(es: seq<Entry>, r: Region, x: Name, n: Name, m: Name) returns (k: nat)
    requires Roomy(es, r, n, m) && |EmptySlots(es)| >= 3 && GoodName(x) && x != n && x != m && Find(es, x) < 0
    requires NextFree(es, r.dir + 1) + 2 <= r.limit
    ensures Enabled(es, r, Wrote(x, 1024))
    ensures var es', s := After(es, r, Wrote(x, 1024)), NextFree(es, r.dir + 1);
            && Roomy(es', r, n, m) && Topmost(es', k) && Matches(es'[k], x)
            && es'[k].start == s && es'[k].count == 1024 && NextFree(es', r.dir + 1) == s + 2
  {
    var s := NextFree(es, r.dir + 1);
    SomeEmptySlot(es);
    k := SaveNew(es, r, x, 1024);
    StillAbsent(es, After(es, r, Wrote(x, 1024)), k, x, s, 1024, n);
    StillAbsent(es, After(es, r, Wrote(x, 1024)), k, x, s, 1024, m);
  }

  lemma SavedShorter(es: seq<Entry>, r: Region, k: nat, x: Name, n: Name, m: Name)
    requires Roomy(es, r, n, m) && GoodName(x) && x != n && x != m
    requires Topmost(es, k) && Matches(es[k], x) && es[k].count == 1024
    ensures Enabled(es, r, Wrote(x, 512))
    ensures var es' := After(es, r, Wrote(x, 512));
            Roomy(es', r, n, m) && NextFree(es', r.dir + 1) == es[k].start + 1
  {
    SaveShorter(es, r, k, x, 512);
    StillAbsent(es, After(es, r, Wrote(x, 512)), k, x, es[k].start, 512, n);
    StillAbsent(es, After(es, r, Wrote(x, 512)), k, x, es[k].start, 512, m);
  }

  lemma RoomyReserves(es: seq<Entry>, r: Region, n: Name, m: Name, image: Image)
    requires Roomy(es, r, n, m) && image.start == NextFree(es, r.dir + 1)
    requires 0 < image.sectors <= 2 && image.start + image.sectors <= r.limit
    ensures Enabled(es, r, Reserved(image))
  {
    SomeEmptySlot(es);
  }

  /** The design's promise fails: from every clean directory with three empty slots and three free
      sectors, two overlapping reservations can both be handed out and both be published. */
  lemma BothPublished(es: seq<Entry>, r: Region, drive: byte, x: Name, n: Name, m: Name) returns (a: Image, b: Image)
    requires CleanDir(es, r) && |EmptySlots(es)| >= 3 && NextFree(es, r.dir + 1) + 3 <= r.limit
    requires GoodName(x) && GoodName(n) && GoodName(m) && x != n && x != m && n != m
    requires Find(es, x) < 0 && Find(es, n) < 0 && Find(es, m) < 0
    ensures Overlap(a, b) && IsRun(es, r, Script(x, n, a, m, b))
  {
    var s := NextFree(es, r.dir + 1);
    a, b := Image(drive, s + 1, 2), Image(drive, s + 2, 1);
    var k := SavedLonger(es, r, x, n, m);
    var es1 := After(es, r, Wrote(x, 1024));
    RoomyReserves(es1, r, n, m, b);
    SavedShorter(es1, r, k, x, n, m);
    var es2 := After(es1, r, Wrote(x, 512));
    RoomyReserves(es2, r, n, m, a);
    SecondPart(es2, r, n, a, m, b);
    ScriptRuns(es, es1, es2, r, x, n, a, m, b);
  }

  lemma ScriptRuns(es: seq<Entry>, es1: seq<Entry>, es2: seq<Entry>, r: Region,
                   x: Name, n: Name, a: Image, m: Name, b: Image)
    requires Enabled(es, r, Wrote(x, 1024)) && es1 == After(es, r, Wrote(x, 1024))
    requires Enabled(es1, r, Wrote(x, 512)) && es2 == After(es1, r, Wrote(x, 512))
    requires Enabled(es1, r, Reserved(b)) && Enabled(es2, r, Reserved(a)) && IsRun(es2, r, PublishBoth(n, a, m, b))
    ensures IsRun(es, r, Script(x, n, a, m, b))
  {
    var last := PublishBoth(n, a, m, b);
    ConsRun(es2, r, Reserved(a), last);
    ConsRun(es1, r, Wrote(x, 512), [Reserved(a)] + last);
    ConsRun(es1, r, Reserved(b), [Wrote(x, 512)] + ([Reserved(a)] + last));
    ConsRun(es, r, Wrote(x, 1024), [Reserved(b)] + ([Wrote(x, 512)] + ([Reserved(a)] + last)));
  }

  // ----- whole disks -----

  datatype Call = Save(name: Name, data: seq<byte>) | Publish(name: Name, image: Image)

  ghost predicate CleanDisk(d: Disk) {
    Formatted(d) && CleanDir(Dir(d), RegionOf(d))
  }

  ghost predicate Accepted(d: Disk, c: Call) {
    match c
    case Save(n, data) => WriteVerdict(d, n, data) == FS_OK
    case Publish(n, image) => PublishVerdict(d, n, image) == FS_OK
  }

  /** What an accepted call stores under its name. */
  ghost function Stored(d: Disk, c: Call): seq<byte>
    requires Accepted(d, c)
  {
    match c
    case Save(_, data) => data
    case Publish(_, image) => SectorBytes(d, image.start, image.sectors)
  }

  /** The disk after a call; a refused call changes nothing. */
  ghost function DiskAfter(d: Disk, c: Call): Disk {
    if !Accepted(d, c) then d else
    match c
    case Save(n, data) => WrittenDisk(d, PlanFor(d, n, data), n, data)
    case Publish(n, image) => PublishedDisk(d, n, image)
  }

  ghost function DiskAfterAll(d: Disk, calls: seq<Call>): Disk
    decreases |calls|
  {
    if calls == [] then d else DiskAfterAll(DiskAfter(d, calls[0]), calls[1..])
  }

  /** Every accepted call, in order, updates the map at its name. */
  ghost function MapAfterAll(files: map<Name, seq<byte>>, d: Disk, calls: seq<Call>): map<Name, seq<byte>>
    decreases |calls|
  {
    if calls == [] then files else
    var c := calls[0];
    MapAfterAll(if Accepted(d, c) then files[c.name := Stored(d, c)] else files, DiskAfter(d, c), calls[1..])
  }

  lemma SaveIsUpdate(d: Disk, n: Name, data: seq<byte>)
    requires CleanDisk(d) && Accepted(d, Save(n, data))
    ensures CleanDisk(DiskAfter(d, Save(n, data)))
    ensures Files(DiskAfter(d, Save(n, data))) == Files(d)[n := data]
  {
    var p := PlanFor(d, n, data);
    PlanInside(Dir(d), RegionOf(d), n, |data|, p);
    WriteUpdatesMap(d, n, data, p);
    WrittenDiskFacts(d, n, data, p);
    WriteKeepsClean(Dir(d), RegionOf(d), n, |data|);
  }

  lemma PublishIsUpdate(d: Disk, n: Name, image: Image)
    requires CleanDisk(d) && Accepted(d, Publish(n, image))
    ensures CleanDisk(DiskAfter(d, Publish(n, image)))
    ensures Files(DiskAfter(d, Publish(n, image))) == Files(d)[n := Stored(d, Publish(n, image))]
  {
    PublishUpdatesMap(d, n, image);
    EntriesOfPut(d[RegionOf(d).dir], FirstFree(Dir(d)), PublishedEntry(n, image));
    PublishNew(Dir(d), RegionOf(d), n, image);
  }

  /** The refinement over whole runs: whatever is saved and published on a clean disk, in any order
      and whether accepted or refused, the disk stays clean and holds exactly the files that the
      accepted calls make of the map. */
  lemma {:induction false} RunIsFold(d: Disk, calls: seq<Call>)
    requires CleanDisk(d)
    ensures CleanDisk(DiskAfterAll(d, calls))
    ensures Files(DiskAfterAll(d, calls)) == MapAfterAll(Files(d), d, calls)
    decreases |calls|
  {
    if calls != [] {
      if Accepted(d, calls[0]) {
        match calls[0] {
          case Save(n, data) => SaveIsUpdate(d, n, data);
          case Publish(n, image) => PublishIsUpdate(d, n, image);
        }
      }
      RunIsFold(DiskAfter(d, calls[0]), calls[1..]);
    }
  }
}
