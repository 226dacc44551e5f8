/**
 * Task memory: mapping guest ranges into a task, with rollback, and the references it holds on memory regions
 * (hw/display/apple-gfx-common-linux.c, hw/display/apple-gfx-pci-linux.c).
 */
module TaskMemory {

  /** The identity of a `MemoryRegion`. */
  type Region = nat

  datatype Option<T> = None | Some(value: T)

  /** The host byte behind one byte of a task's address space. */
  datatype HostByte = HostByte(address: nat, readOnly: bool)

  type Space = map<nat, HostByte>

  /** What `apple_gfx_host_ptr_for_gpa_range` makes of a guest range. */
  datatype Translation = NotDirect | Direct(region: Region, host: nat)

  /**
   * One call of `apple_gfx_map_memory`. `translations` and `accepts` are the answers the address space and the
   * library give for each range.
   */
  datatype Request = Request(offset: nat, lengths: seq<nat>, readOnly: bool,
                             translations: seq<Translation>, accepts: seq<bool>)
  {
    predicate Valid() {
      |lengths| == |translations| == |accepts|
    }

    /** Where range `n` starts: the ranges are packed one after another. */
    function Start(n: nat): (s: nat)
      requires n <= |lengths|
      ensures s >= offset
    {
      if n == 0 then offset else Start(n - 1) + lengths[n - 1]
    }

    /** Range `i` can be translated, and the library maps it: it never maps beyond the reservation. */
    predicate Good(i: nat, size: nat)
      requires Valid() && i < |lengths|
    {
      translations[i].Direct? && accepts[i] && Start(i + 1) <= size
    }

    /** The host address of range `i`, where it has one. */
    function Host(i: nat): nat
      requires i < |translations|
    {
      if translations[i].Direct? then translations[i].host else 0
    }

    predicate Uses(i: nat, region: Region)
      requires i < |translations|
    {
      translations[i].Direct? && translations[i].region == region
    }

    /** How many of the first `n` ranges are mapped before the first failure. */
    function Leading(size: nat, n: nat): (k: nat)
      requires Valid() && n <= |lengths|
      ensures k <= n
      ensures forall i :: 0 <= i < k ==> Good(i, size)
      ensures k < n ==> !Good(k, size)
    {
      if n == 0 then 0
      else
        var k := Leading(size, n - 1);
        if k == n - 1 && Good(n - 1, size) then n else k
    }
  }

  lemma {:induction false} LeadingIs(q: Request, size: nat, n: nat, k: nat)
    requires q.Valid() && k <= n <= |q.lengths|
    requires forall i :: 0 <= i < k ==> q.Good(i, size)
    requires k < n ==> !q.Good(k, size)
    ensures q.Leading(size, n) == k
    decreases n
  {
    if k < n {
      LeadingIs(q, size, n - 1, k);
    } else if n > 0 {
      LeadingIs(q, size, n - 1, n - 1);
    }
  }

  // ----- the library's side, on values -----

  predicate InRange(k: nat, at: nat, length: nat) {
    at <= k < at + length
  }

  function Placed(space: Space, at: nat, length: nat, host: nat, readOnly: bool): Space {
    space + map k: nat | at <= k < at + length && InRange(k, at, length) :: HostByte(host + (k - at), readOnly)
  }

  lemma PlacedAt(space: Space, at: nat, length: nat, host: nat, readOnly: bool, k: nat)
    ensures var placed := Placed(space, at, length, host, readOnly);
      if InRange(k, at, length) then k in placed && placed[k] == HostByte(host + (k - at), readOnly)
      else (k in placed <==> k in space) && (k in space ==> placed[k] == space[k])
  {
  }

  function Without(space: Space, lo: nat, hi: nat): Space {
    map k | k in space && !(lo <= k < hi) :: space[k]
  }

  /** The first `n` ranges of a request placed one after another. */
  function Packed(space: Space, q: Request, n: nat): Space
    requires q.Valid() && n <= |q.lengths|
  {
    if n == 0 then space
    else Placed(Packed(space, q, n - 1), q.Start(n - 1), q.lengths[n - 1], q.Host(n - 1), q.readOnly)
  }

  lemma {:induction false} StartGrows(q: Request, i: nat, n: nat)
    requires i <= n <= |q.lengths|
    ensures q.Start(i) <= q.Start(n)
    decreases n
  {
    if i < n {
      StartGrows(q, i, n - 1);
    }
  }

  /** Byte `j` of range `i` is found at the packed position, backed by byte `j` of its own translation. */
  lemma {:induction false} PackedContiguously(space: Space, q: Request, n: nat, i: nat, j: nat)
    requires q.Valid() && n <= |q.lengths|
    requires i < n && j < q.lengths[i]
    ensures q.Start(i) + j in Packed(space, q, n)
    ensures Packed(space, q, n)[q.Start(i) + j] == HostByte(q.Host(i) + j, q.readOnly)
    decreases n
  {
    hide Placed;
    PlacedAt(Packed(space, q, n - 1), q.Start(n - 1), q.lengths[n - 1], q.Host(n - 1), q.readOnly, q.Start(i) + j);
    if i < n - 1 {
      PackedContiguously(space, q, n - 1, i, j);
      StartGrows(q, i + 1, n - 1);
    }
  }

  /** Outside the packed ranges nothing changes. */
  lemma {:induction false} PackedElsewhere(space: Space, q: Request, n: nat, k: nat)
    requires q.Valid() && n <= |q.lengths|
    requires !(q.Start(0) <= k < q.Start(n))
    ensures k in Packed(space, q, n) <==> k in space
    ensures k in space ==> Packed(space, q, n)[k] == space[k]
    decreases n
  {
    hide Placed;
    if n > 0 {
      PlacedAt(Packed(space, q, n - 1), q.Start(n - 1), q.lengths[n - 1], q.Host(n - 1), q.readOnly, k);
      StartGrows(q, 0, n - 1);
      PackedElsewhere(space, q, n - 1, k);
    }
  }

  /** Unmapping all of the packed ranges leaves what was there before, outside them. */
  lemma UnpackedIsWithout(space: Space, q: Request, n: nat)
    requires q.Valid() && n <= |q.lengths|
    ensures Without(Packed(space, q, n), q.offset, q.Start(n)) == Without(space, q.offset, q.Start(n))
  {
    forall k: nat | !(q.offset <= k < q.Start(n))
      ensures k in Packed(space, q, n) <==> k in space
      ensures k in space ==> Packed(space, q, n)[k] == space[k]
    {
      PackedElsewhere(space, q, n, k);
    }
  }

  predicate Unmapped(space: Space, lo: nat, hi: nat) {
    forall k :: lo <= k < hi ==> k !in space
  }

  /** Removing an interval changes nothing exactly when nothing was mapped there. */
  lemma WithoutNothing(space: Space, lo: nat, hi: nat)
    ensures Without(space, lo, hi) == space <==> Unmapped(space, lo, hi)
  {
    if Without(space, lo, hi) == space {
      forall k | lo <= k < hi
        ensures k !in space
      {
        assert k !in Without(space, lo, hi);
      }
    }
  }

  /** A task of the library: a reserved range of addresses, sparsely mapped. */
  class LibraryTask {
    const size: nat
    var space: Space

    constructor (size: nat)
      ensures this.size == size && space == map[]
    {
      this.size := size;
      space := map[];
    }

    /** `lagfx_task_map_host_memory`: a failed call changes nothing. */
    method MapHostMemory(at: nat, host: nat, length: nat, readOnly: bool, accepts: bool) returns (ok: bool)
      modifies this
      ensures ok == (accepts && at + length <= size)
      ensures space == if ok then Placed(old(space), at, length, host, readOnly) else old(space)
    {
      ok := accepts && at + length <= size;
      if ok {
        space := Placed(space, at, length, host, readOnly);
      }
    }

    /** `lagfx_task_unmap`, when it succeeds. */
    method Unmap(at: nat, length: nat)
      modifies this
      ensures space == Without(old(space), at, at + length)
    {
      space := Without(space, at, at + length);
    }
  }

  // ----- regions -----

  predicate Distinct<T(==)>(s: seq<T>) {
    forall i, j :: 0 <= i < j < |s| ==> s[i] != s[j]
  }

  /** The regions that this call was the first to list, in order. */
  function Taken(news: seq<Option<Region>>): seq<Region> {
    if news == [] then [] else Taken(news[..|news| - 1]) + Value(news[|news| - 1])
  }

  function Value(x: Option<Region>): seq<Region> {
    if x.Some? then [x.value] else []
  }

  /** The regions a task lists after the first `n` ranges: each new one is added at the end. */
  function Listed(regions: seq<Region>, q: Request, n: nat): seq<Region>
    requires n <= |q.translations|
  {
    if n == 0 then regions
    else
      var before := Listed(regions, q, n - 1);
      match q.translations[n - 1]
      case NotDirect => before
      case Direct(region, _) => if region in before then before else before + [region]
  }

  /** No region is listed twice, and the regions listed are the old ones and those of the ranges. */
  lemma {:induction false} ListedMeaning(regions: seq<Region>, q: Request, n: nat, r: Region)
    requires n <= |q.translations| && Distinct(regions)
    ensures Distinct(Listed(regions, q, n))
    ensures r in Listed(regions, q, n) <==> r in regions || exists j :: 0 <= j < n && q.Uses(j, r)
    decreases n
  {
    if n > 0 {
      ListedMeaning(regions, q, n - 1, r);
      assert q.Uses(n - 1, r) <==> q.translations[n - 1].Direct? && q.translations[n - 1].region == r;
    }
  }

  lemma ListedIsDistinct(regions: seq<Region>, q: Request, n: nat)
    requires n <= |q.translations| && Distinct(regions)
    ensures Distinct(Listed(regions, q, n))
    decreases n
  {
    if n > 0 {
      ListedIsDistinct(regions, q, n - 1);
    }
  }

  /** The device's record of one task. */
  class Task {
    const library: LibraryTask
    var mappedRegions: seq<Region>

    constructor (library: LibraryTask)
      ensures this.library == library && mappedRegions == []
    {
      this.library := library;
      mappedRegions := [];
    }

    /** `g_ptr_array_remove_fast`: the last entry takes the place of the removed one. */
    method RemoveFast(region: Region)
      requires region in mappedRegions
      modifies this
      ensures multiset(mappedRegions) == multiset(old(mappedRegions)) - multiset{region}
    {
      hide SwapOut;
      var i := IndexOf(mappedRegions, region);
      SwapOutRemoves(mappedRegions, i);
      mappedRegions := SwapOut(mappedRegions, i);
    }
  }

  method IndexOf(regions: seq<Region>, region: Region) returns (i: nat)
    requires region in regions
    ensures i < |regions| && regions[i] == region
  {
    i := 0;
    while i < |regions| && regions[i] != region
      invariant 0 <= i <= |regions| && forall j :: 0 <= j < i ==> regions[j] != region
    {
      i := i + 1;
    }
  }

  /** What is left when the last entry takes the place of entry `i`. */
  function SwapOut(s: seq<Region>, i: nat): seq<Region>
    requires i < |s|
  {
    if i < |s| - 1 then s[..|s| - 1][i := s[|s| - 1]] else s[..|s| - 1]
  }

  lemma SwapOutRemoves(s: seq<Region>, i: nat)
    requires i < |s|
    ensures multiset(SwapOut(s, i)) == multiset(s) - multiset{s[i]}
  {
    var front, last := s[..|s| - 1], s[|s| - 1];
    assert s == front + [last];
    if i < |front| {
      assert multiset(front[i := last]) == multiset(front) - multiset{front[i]} + multiset{last};
    }
  }

  lemma TakenOneMore(news: seq<Option<Region>>, x: Option<Region>)
    ensures Taken(news + [x]) == Taken(news) + Value(x)
    ensures multiset(Taken(news + [x])) == multiset(Taken(news)) + multiset(Value(x))
  {
    assert (news + [x])[..|news|] == news;
  }

  lemma TakenGrows(news: seq<Option<Region>>, i: nat)
    requires i < |news|
    ensures Taken(news[..i + 1]) == Taken(news[..i]) + Value(news[i])
  {
    assert news[..i + 1][..i] == news[..i];
  }

  lemma {:induction false} TakenPrefix(news: seq<Option<Region>>, i: nat)
    requires i <= |news|
    ensures |Taken(news[..i])| <= |Taken(news)| && Taken(news[..i]) == Taken(news)[..|Taken(news[..i])|]
    decreases |news|
  {
    if i == |news| {
      assert news[..i] == news;
    } else {
      var n := |news| - 1;
      assert news[..n][..i] == news[..i];
      TakenPrefix(news[..n], i);
    }
  }

  lemma TakenAt(news: seq<Option<Region>>, i: nat, left: seq<Region>)
    requires i < |news| && Taken(news) == Taken(news[..i]) + left
    ensures news[i].Some? ==> left != [] && left[0] == news[i].value && Taken(news) == Taken(news[..i + 1]) + left[1..]
    ensures news[i].None? ==> Taken(news) == Taken(news[..i + 1]) + left
  {
    hide Taken;
    TakenGrows(news, i);
    TakenPrefix(news, i + 1);
    var a, b := Taken(news[..i]), Taken(news[..i + 1]);
    if news[i].Some? {
      assert Taken(news)[|a|] == b[|a|] == news[i].value;
      assert left[0] == (a + left)[|a|];
    }
  }

  /** What one more range adds. */
  lemma NextRange(regions: seq<Region>, news: seq<Option<Region>>, space: Space, q: Request, k: nat, x: Option<Region>)
    requires q.Valid() && k < |q.lengths| && Listed(regions, q, k) == regions + Taken(news)
    requires x == if q.translations[k].Direct? && q.translations[k].region !in Listed(regions, q, k)
                  then Some(q.translations[k].region) else None
    ensures q.Start(k + 1) == q.Start(k) + q.lengths[k]
    ensures Listed(regions, q, k + 1) == Listed(regions, q, k) + Value(x) == regions + Taken(news + [x])
    ensures multiset(Taken(news + [x])) == multiset(Taken(news)) + multiset(Value(x))
    ensures q.translations[k].Direct? ==>
      Packed(space, q, k + 1) == Placed(Packed(space, q, k), q.Start(k), q.lengths[k], q.translations[k].host, q.readOnly)
    ensures forall size :: q.Good(k, size) <==>
      q.translations[k].Direct? && q.accepts[k] && q.Start(k) + q.lengths[k] <= size
  {
    hide Placed, Taken;
    TakenOneMore(news, x);
  }

  lemma NoRanges(regions: seq<Region>, space: Space, q: Request)
    ensures Listed(regions, q, 0) == regions == regions + Taken([]) && q.Start(0) == q.offset
    ensures q.Valid() ==> Packed(space, q, 0) == space
  {
  }

  lemma DropFirst(others: multiset<Region>, left: seq<Region>)
    requires left != []
    ensures left[0] in others + multiset(left)
    ensures others + multiset(left) - multiset{left[0]} == others + multiset(left[1..])
  {
    assert left == [left[0]] + left[1..];
  }

  lemma SameListing(a: seq<Region>, b: seq<Region>)
    requires multiset(a) == multiset(b) && Distinct(a)
    ensures Distinct(b)
  {
    forall x ensures multiset(b)[x] <= 1 {
      DistinctCountsOnce(a, x);
    }
    CountedOnceIsDistinct(b);
  }

  lemma Cancels(a: multiset<Region>, b: multiset<Region>, c: multiset<Region>)
    requires a + c == b + c
    ensures a == b
  {
    assert a == a + c - c == b + c - c == b;
  }

  lemma TakenNone()
    ensures Taken([]) == []
  {
  }

  // ----- the device -----

  /** Every listing of every region by every task, counted. */
  ghost function Listings(tasks: seq<Task>): multiset<Region>
    reads set t | t in tasks
  {
    if tasks == [] then multiset{}
    else Listings(tasks[..|tasks| - 1]) + multiset(tasks[|tasks| - 1].mappedRegions)
  }

  ghost function Holders(tasks: seq<Task>, region: Region): nat
    reads set t | t in tasks
  {
    if tasks == [] then 0
    else Holders(tasks[..|tasks| - 1], region) + (if region in tasks[|tasks| - 1].mappedRegions then 1 else 0)
  }

  /** As no task lists a region twice, the listings of a region number its holders. */
  lemma {:induction false} ListingsCountHolders(tasks: seq<Task>, region: Region)
    requires forall t :: t in tasks ==> Distinct(t.mappedRegions)
    ensures Listings(tasks)[region] == Holders(tasks, region)
    decreases |tasks|
  {
    if tasks != [] {
      var n := |tasks| - 1;
      assert forall t :: t in tasks[..n] ==> t in tasks;
      ListingsCountHolders(tasks[..n], region);
      DistinctCountsOnce(tasks[n].mappedRegions, region);
    }
  }

  lemma {:induction false} DistinctCountsOnce(s: seq<Region>, x: Region)
    requires Distinct(s)
    ensures multiset(s)[x] == if x in s then 1 else 0
    decreases |s|
  {
    if s != [] {
      var n := |s| - 1;
      assert s == s[..n] + [s[n]];
      DistinctCountsOnce(s[..n], x);
    }
  }

  lemma {:induction false} CountedOnceIsDistinct(s: seq<Region>)
    requires forall x :: multiset(s)[x] <= 1
    ensures Distinct(s)
    decreases |s|
  {
    if s != [] {
      var n := |s| - 1;
      assert s == s[..n] + [s[n]];
      forall x ensures multiset(s[..n])[x] <= 1 {
        assert multiset(s)[x] <= 1;
      }
      CountedOnceIsDistinct(s[..n]);
      assert multiset(s)[s[n]] <= 1;
      assert s[n] !in multiset(s[..n]);
    }
  }

  lemma Exchanged(x: multiset<Region>, a: multiset<Region>, b: multiset<Region>)
    ensures x + a + b == x + b + a
  {
  }

  /** Dropping one task drops exactly its own listings. */
  lemma {:induction false} ListingsWithout(tasks: seq<Task>, i: nat)
    requires i < |tasks|
    ensures Listings(tasks) == Listings(tasks[..i] + tasks[i + 1..]) + multiset(tasks[i].mappedRegions)
    decreases |tasks|
  {
    var n := |tasks| - 1;
    var rest := tasks[..i] + tasks[i + 1..];
    if i < n {
      ListingsWithout(tasks[..n], i);
      assert rest[..n - 1] == tasks[..n][..i] + tasks[..n][i + 1..];
      assert rest[n - 1] == tasks[n] && tasks[..n][i] == tasks[i];
      Exchanged(Listings(rest[..n - 1]), multiset(tasks[i].mappedRegions), multiset(tasks[n].mappedRegions));
    } else {
      assert rest == tasks[..n];
    }
  }

  /** No two records are for the same library task. */
  predicate OwnLibraries(tasks: seq<Task>) {
    forall i, j :: 0 <= i < j < |tasks| ==> tasks[i].library != tasks[j].library
  }

  lemma RemainingTasks(tasks: seq<Task>, i: nat)
    requires i < |tasks| && Distinct(tasks) && OwnLibraries(tasks)
    ensures var rest := tasks[..i] + tasks[i + 1..];
      && Distinct(rest) && OwnLibraries(rest)
      && (forall t :: t in rest ==> t in tasks)
      && multiset(tasks[i].mappedRegions) <= Listings(tasks)
      && Listings(rest) == Listings(tasks) - multiset(tasks[i].mappedRegions)
  {
    ListingsWithout(tasks, i);
  }

  lemma NotAmongRest(tasks: seq<Task>, i: nat)
    requires i < |tasks| && Distinct(tasks)
    ensures tasks[i] !in tasks[..i] + tasks[i + 1..]
  {
  }

  lemma OnlyTaskOf(tasks: seq<Task>, i: nat)
    requires i < |tasks| && OwnLibraries(tasks)
    ensures forall j :: 0 <= j < |tasks| && tasks[j].library == tasks[i].library ==> j == i
  {
  }

  /** Of references that cover a whole list, those for a prefix of it can be dropped, and then the next one. */
  lemma DropNext(held: multiset<Region>, s: seq<Region>, i: nat)
    requires multiset(s) <= held && i < |s|
    ensures s[i] in held - multiset(s[..i])
    ensures held - multiset(s[..i]) - multiset{s[i]} == held - multiset(s[..i + 1])
  {
    assert s[..i + 1] == s[..i] + [s[i]];
    assert s == s[..i + 1] + s[i + 1..];
    assert multiset(s[..i])[s[i]] < multiset(s)[s[i]] <= held[s[i]];
  }

  class Shell {
    var tasks: seq<Task>
    /** References that this device holds on memory regions. */
    ghost var refs: multiset<Region>

    ghost predicate Valid()
      reads this, set t | t in tasks
    {
      && Distinct(tasks)
      && OwnLibraries(tasks)
      && (forall t :: t in tasks ==> Distinct(t.mappedRegions))
      && refs == Listings(tasks)
    }

    constructor ()
      ensures Valid() && tasks == [] && refs == multiset{}
    {
      tasks := [];
      refs := multiset{};
    }

    ghost method Ref(region: Region)
      modifies this`refs
      ensures refs == old(refs) + multiset{region}
    {
      refs := refs + multiset{region};
    }

    /** `memory_region_unref`, only ever of a reference that is held. */
    ghost method Unref(region: Region)
      requires region in refs
      modifies this`refs
      ensures refs == old(refs) - multiset{region}
    {
      refs := refs - multiset{region};
    }

    /** Drops one reference for each entry of a list. */
    method UnrefAll(regions: seq<Region>)
      requires multiset(regions) <= refs
      modifies this`refs
      ensures refs == old(refs) - multiset(regions)
    {
      var i := 0;
      ghost var held := refs;
      assert refs == held - multiset(regions[..0]);
      while i < |regions|
        invariant 0 <= i <= |regions|
        invariant refs == held - multiset(regions[..i])
      {
        DropNext(held, regions, i);
        Unref(regions[i]);
        i := i + 1;
      }
      assert regions[..i] == regions;
    }

    /** The end of a task's life, shared by destroy and drain: unlink it, and drop what it holds. */
    method DropTask(i: nat)
      requires Valid() && i < |tasks|
      modifies this
      ensures Valid()
      ensures tasks == old(tasks)[..i] + old(tasks)[i + 1..]
      ensures refs == old(refs) - multiset(old(tasks)[i].mappedRegions)
    {
      hide Listings, Distinct, OwnLibraries;
      var regions := tasks[i].mappedRegions;
      RemainingTasks(tasks, i);
      tasks := tasks[..i] + tasks[i + 1..];
      UnrefAll(regions);
    }

    /** `apple_gfx_create_task`; `created` is what `lagfx_task_create` returned. */
    method CreateTask(created: LibraryTask?)
      requires Valid() && forall t :: t in tasks ==> t.library != created
      modifies this`tasks
      ensures Valid() && refs == old(refs)
      ensures created == null ==> tasks == old(tasks)
      ensures created != null ==>
        && |tasks| == |old(tasks)| + 1 && tasks[..|old(tasks)|] == old(tasks)
        && tasks[|old(tasks)|].library == created && tasks[|old(tasks)|].mappedRegions == []
    {
      if created == null {
        return;
      }
      var task := new Task(created);
      ghost var n := |tasks|;
      tasks := tasks + [task];
      assert tasks[..n] == old(tasks);
    }

    /** The list walk that looks a library handle up. */
    method Find(handle: LibraryTask) returns (i: nat)
      ensures i <= |tasks| && (i < |tasks| ==> tasks[i].library == handle)
      ensures i == |tasks| ==> forall t :: t in tasks ==> t.library != handle
    {
      i := 0;
      while i < |tasks| && tasks[i].library != handle
        invariant 0 <= i <= |tasks| && forall j :: 0 <= j < i ==> tasks[j].library != handle
      {
        i := i + 1;
      }
    }

    /** `apple_gfx_destroy_task`: every reference of the task is dropped, once; an unknown handle changes nothing. */
    method DestroyTask(handle: LibraryTask)
      requires Valid()
      modifies this
      ensures Valid()
      ensures (forall t :: t in old(tasks) ==> t.library != handle) ==> tasks == old(tasks) && refs == old(refs)
      ensures forall i :: 0 <= i < |old(tasks)| && old(tasks)[i].library == handle ==>
        && tasks == old(tasks)[..i] + old(tasks)[i + 1..]
        && refs == old(refs) - multiset(old(tasks)[i].mappedRegions)
    {
      var i := Find(handle);
      if i == |tasks| {
        return;
      }
      OnlyTaskOf(tasks, i);
      DropTask(i);
    }

    /**
     * One range: translate it, list and reference its region if the task has not seen it (`newRegion[k]` remembers
     * that), and ask the library to map it.
     */
    method MapRange(task: Task, q: Request, k: nat, at: nat, newRegion: array<Option<Region>>) returns (ok: bool)
      requires q.Valid() && k < |q.lengths| == newRegion.Length && newRegion[k] == None
      modifies this`refs, task, task.library, newRegion
      ensures forall j :: 0 <= j < newRegion.Length && j != k ==> newRegion[j] == old(newRegion[j])
      ensures newRegion[k] == if q.translations[k].Direct? && q.translations[k].region !in old(task.mappedRegions)
                              then Some(q.translations[k].region) else None
      ensures task.mappedRegions == old(task.mappedRegions) + Value(newRegion[k])
      ensures refs == old(refs) + multiset(Value(newRegion[k]))
      ensures ok == (q.translations[k].Direct? && q.accepts[k] && at + q.lengths[k] <= task.library.size)
      ensures task.library.space ==
        if ok then Placed(old(task.library.space), at, q.lengths[k], q.translations[k].host, q.readOnly)
        else old(task.library.space)
    {
      hide Placed;
      if q.translations[k].NotDirect? {
        return false;
      }
      var region := q.translations[k].region;
      if region !in task.mappedRegions {
        task.mappedRegions := task.mappedRegions + [region];
        Ref(region);
        newRegion[k] := Some(region);
      }
      ok := task.library.MapHostMemory(at, q.translations[k].host, q.lengths[k], q.readOnly, q.accepts[k]);
    }

    /**
     * The loop of `apple_gfx_map_memory`: it stops at the first range that cannot be translated or mapped. A region
     * seen for the first time is listed and referenced before the library is asked.
     */
    method MapRanges(task: Task, q: Request, mapped: array<bool>, newRegion: array<Option<Region>>) returns (k: nat)
      requires q.Valid() && |q.lengths| == mapped.Length == newRegion.Length
      requires forall j :: 0 <= j < newRegion.Length ==> newRegion[j] == None
      modifies this`refs, task, task.library, mapped, newRegion
      ensures k == q.Leading(task.library.size, |q.lengths|) <= mapped.Length
      ensures forall j :: 0 <= j < k ==> mapped[j]
      ensures var done := if k < newRegion.Length then k + 1 else k;
        && task.mappedRegions == Listed(old(task.mappedRegions), q, done)
        && task.mappedRegions == old(task.mappedRegions) + Taken(newRegion[..done])
        && refs == old(refs) + multiset(Taken(newRegion[..done]))
      ensures task.library.space == Packed(old(task.library.space), q, k)
    {
      hide Placed, Request.Leading, Request.Good, Taken, Listed, Packed, Request.Start, Value;
      var cur := q.offset;
      k := 0;
      ghost var news: seq<Option<Region>> := [];
      ghost var regions, space := task.mappedRegions, task.library.space;
      NoRanges(regions, space, q);
      while k < |q.lengths|
        invariant 0 <= k <= |q.lengths| && cur == q.Start(k)
        invariant forall j :: 0 <= j < k ==> q.Good(j, task.library.size) && mapped[j]
        invariant |news| == k && (forall j :: 0 <= j < k ==> newRegion[j] == news[j])
        invariant forall j :: k <= j < newRegion.Length ==> newRegion[j] == None
        invariant task.mappedRegions == Listed(regions, q, k) == regions + Taken(news)
        invariant refs == old(refs) + multiset(Taken(news))
        invariant task.library.space == Packed(space, q, k)
      {
        var ok := MapRange(task, q, k, cur, newRegion);
        NextRange(regions, news, space, q, k, newRegion[k]);
        news := news + [newRegion[k]];
        if !ok {
          assert newRegion[..k + 1] == news;
          LeadingIs(q, task.library.size, |q.lengths|, k);
          return;
        }
        mapped[k] := true;
        cur := cur + q.lengths[k];
        k := k + 1;
      }
      assert newRegion[..k] == news;
      LeadingIs(q, task.library.size, |q.lengths|, k);
    }

    /** The first rollback loop: the ranges this call had mapped are unmapped, one after another. */
    method UnmapRanges(library: LibraryTask, q: Request, mapped: array<bool>, fail: nat)
      requires q.Valid() && fail <= |q.lengths| == mapped.Length
      requires forall j :: 0 <= j < fail ==> mapped[j]
      modifies library
      ensures library.space == Without(old(library.space), q.offset, q.Start(fail))
    {
      var at := q.offset;
      var i := 0;
      assert library.space == Without(library.space, q.offset, q.offset);
      while i < fail
        invariant 0 <= i <= fail && at == q.Start(i)
        invariant library.space == Without(old(library.space), q.offset, q.Start(i))
      {
        if mapped[i] {
          library.Unmap(at, q.lengths[i]);
        }
        at := at + q.lengths[i];
        i := i + 1;
      }
    }

    /** One region that this call was the first to list; `left` are those still to be unlisted. */
    method UnlistNext(task: Task, region: Region, ghost regions: multiset<Region>, ghost others: multiset<Region>,
                      ghost left: seq<Region>)
      requires left != [] && region == left[0]
      requires multiset(task.mappedRegions) == regions + multiset(left) && refs == others + multiset(left)
      modifies this`refs, task
      ensures multiset(task.mappedRegions) == regions + multiset(left[1..]) && refs == others + multiset(left[1..])
    {
      DropFirst(regions, left);
      DropFirst(others, left);
      assert region in multiset(task.mappedRegions);
      task.RemoveFast(region);
      Unref(region);
    }

    /** The second rollback loop: the regions this call was the first to list are unlisted and their references dropped. */
    method UnlistRegions(task: Task, newRegion: array<Option<Region>>, done: nat,
                         ghost regions: multiset<Region>, ghost others: multiset<Region>)
      requires done <= newRegion.Length
      requires multiset(task.mappedRegions) == regions + multiset(Taken(newRegion[..done]))
      requires refs == others + multiset(Taken(newRegion[..done]))
      modifies this`refs, task
      ensures multiset(task.mappedRegions) == regions && refs == others
    {
      hide Taken;
      ghost var news := newRegion[..done];
      ghost var left := Taken(news);
      TakenNone();
      var i := 0;
      while i < done
        invariant 0 <= i <= done && Taken(news) == Taken(news[..i]) + left
        invariant multiset(task.mappedRegions) == regions + multiset(left)
        invariant refs == others + multiset(left)
      {
        TakenAt(news, i, left);
        if newRegion[i].Some? {
          UnlistNext(task, newRegion[i].value, regions, others, left);
          left := left[1..];
        }
        i := i + 1;
      }
      assert news[..i] == news;
    }

    /** The rollback: both loops, after range `k` has failed. `space`, `regions` and `held` are from before the call. */
    method RollBack(task: Task, q: Request, mapped: array<bool>, newRegion: array<Option<Region>>, k: nat,
                    ghost space: Space, ghost regions: seq<Region>, ghost held: multiset<Region>)
      requires q.Valid() && k < |q.lengths| == mapped.Length == newRegion.Length && forall j :: 0 <= j < k ==> mapped[j]
      requires task.library.space == Packed(space, q, k) && Distinct(regions)
      requires task.mappedRegions == regions + Taken(newRegion[..k + 1])
      requires refs == held + multiset(Taken(newRegion[..k + 1]))
      modifies this`refs, task, task.library
      ensures task.library.space == Without(space, q.offset, q.Start(k))
      ensures task.library.space == space <==> Unmapped(space, q.offset, q.Start(k))
      ensures multiset(task.mappedRegions) == multiset(regions) && Distinct(task.mappedRegions)
      ensures refs == held
    {
      hide Taken, Packed, Request.Start, Distinct, Without, Unmapped;
      UnmapRanges(task.library, q, mapped, k);
      UnpackedIsWithout(space, q, k);
      WithoutNothing(space, q.offset, q.Start(k));
      UnlistRegions(task, newRegion, k + 1, multiset(regions), held);
      SameListing(regions, task.mappedRegions);
    }

    /** `apple_gfx_map_memory` once the task is found: the loop, and the rollback if it stopped early. */
    method MapTask(task: Task, q: Request) returns (ok: bool)
      requires q.Valid() && Distinct(task.mappedRegions)
      modifies this`refs, task, task.library
      ensures var k := q.Leading(task.library.size, |q.lengths|);
        && ok == (k == |q.lengths|)
        && task.library.space == (if ok then Packed(old(task.library.space), q, k)
                                  else Without(old(task.library.space), q.offset, q.Start(k)))
        && (!ok ==> (task.library.space == old(task.library.space)
                     <==> Unmapped(old(task.library.space), q.offset, q.Start(k))))
      ensures ok ==> task.mappedRegions == Listed(old(task.mappedRegions), q, |q.lengths|)
      ensures !ok ==> multiset(task.mappedRegions) == multiset(old(task.mappedRegions)) && refs == old(refs)
      ensures Distinct(task.mappedRegions)
      ensures refs + multiset(old(task.mappedRegions)) == old(refs) + multiset(task.mappedRegions)
    {
      hide Taken, Listed, Packed, Request.Leading, Request.Start, Distinct, Without, Unmapped;
      var n := |q.lengths|;
      var mapped, newRegion := new bool[n](_ => false), new Option<Region>[n](_ => None);
      ghost var regions, space := task.mappedRegions, task.library.space;
      var k := MapRanges(task, q, mapped, newRegion);
      ok := k == n;
      if !ok {
        RollBack(task, q, mapped, newRegion, k, space, regions, old(refs));
      } else {
        ListedIsDistinct(regions, q, n);
      }
    }

    /**
     * `apple_gfx_map_memory` is all or nothing. On success every range is mapped, packed from the offset given, and
     * its region listed. On failure the task lists the regions it listed before, every reference count is what it was,
     * and the mappings are the old ones outside the ranges that had been mapped before the failure; so they are
     * restored exactly if nothing was mapped in those ranges before the call.
     */
    method MapMemory(handle: LibraryTask, q: Request) returns (ok: bool)
      requires Valid() && q.Valid()
      modifies this`refs, tasks, handle
      ensures Valid() && tasks == old(tasks)
      ensures (forall t :: t in tasks ==> t.library != handle) ==>
        !ok && refs == old(refs) && handle.space == old(handle.space)
      ensures forall t :: t in tasks && t.library != handle ==> t.mappedRegions == old(t.mappedRegions)
      ensures forall t :: t in tasks && t.library == handle ==>
        var k := q.Leading(handle.size, |q.lengths|);
        && ok == (k == |q.lengths|)
        && (ok ==> handle.space == Packed(old(handle.space), q, |q.lengths|)
                   && t.mappedRegions == Listed(old(t.mappedRegions), q, |q.lengths|))
        && (!ok ==> handle.space == Without(old(handle.space), q.offset, q.Start(k))
                    && (handle.space == old(handle.space) <==> Unmapped(old(handle.space), q.offset, q.Start(k)))
                    && multiset(t.mappedRegions) == multiset(old(t.mappedRegions))
                    && refs == old(refs))
    {
      hide Listings, Listed, Packed, Request.Leading, Request.Start, Without, Unmapped, Distinct;
      var i := Find(handle);
      if i == |tasks| {
        return false;
      }
      OnlyTaskOf(tasks, i);
      ok := MapFound(i, q);
    }

    /** The same for the task at index `i` of the list; the references stay in step with the listings. */
    method MapFound(i: nat, q: Request) returns (ok: bool)
      requires Valid() && q.Valid() && i < |tasks|
      modifies this`refs, tasks[i], tasks[i].library
      ensures Valid() && tasks == old(tasks)
      ensures var library, k := tasks[i].library, q.Leading(tasks[i].library.size, |q.lengths|);
        && ok == (k == |q.lengths|)
        && (ok ==> library.space == Packed(old(tasks[i].library.space), q, |q.lengths|)
                   && tasks[i].mappedRegions == Listed(old(tasks[i].mappedRegions), q, |q.lengths|))
        && (!ok ==> library.space == Without(old(tasks[i].library.space), q.offset, q.Start(k))
                    && (library.space == old(tasks[i].library.space)
                        <==> Unmapped(old(tasks[i].library.space), q.offset, q.Start(k)))
                    && multiset(tasks[i].mappedRegions) == multiset(old(tasks[i].mappedRegions))
                    && refs == old(refs))
    {
      hide Listings, Listed, Packed, Request.Leading, Request.Start, Without, Unmapped, Distinct, OwnLibraries;
      ghost var rest := tasks[..i] + tasks[i + 1..];
      RemainingTasks(tasks, i);
      NotAmongRest(tasks, i);
      ListingsWithout(tasks, i);
      ghost var others, held := Listings(rest), multiset(tasks[i].mappedRegions);
      assert refs == others + held;
      ok := MapTask(tasks[i], q);
      assert Listings(rest) == others;
      Cancels(refs, others + multiset(tasks[i].mappedRegions), held);
      assert refs == others + multiset(tasks[i].mappedRegions);
      ListingsWithout(tasks, i);
    }

    /**
     * `apple_gfx_unmap_memory`: the library's range goes, the references stay until the task is destroyed. When the
     * library refuses, nothing changes.
     */
    method UnmapMemory(handle: LibraryTask, at: nat, length: nat, accepts: bool) returns (ok: bool)
      requires Valid()
      modifies handle
      ensures Valid() && tasks == old(tasks) && refs == old(refs) && ok == accepts
      ensures handle.space == if ok then Without(old(handle.space), at, at + length) else old(handle.space)
    {
      ok := accepts;
      if ok {
        handle.Unmap(at, length);
      }
    }

    /** The task drain of `apple_gfx_pci_unrealize`: afterwards no task is left and no reference is held. */
    method DrainTasks()
      requires Valid()
      modifies this
      ensures Valid() && tasks == [] && refs == multiset{}
    {
      while tasks != []
        invariant Valid()
        decreases |tasks|
      {
        DropTask(0);
      }
    }
  }
}
