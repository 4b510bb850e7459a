/**
 Allocation of specification IDs and their packing into attach cookies. The ID of a probe with
 arguments is the start ID plus the number of such probes before it, in `uint32` arithmetic.
 */
module SpecAllocation {
  import opened Wrappers
  import opened Machine
  import opened Specs
  import opened ArgInterpreter

  type Image = bs: seq<byte> | |bs| == SPEC_SIZE witness seq(SPEC_SIZE, _ => 0)

  /** The specifications of a list of probes, in order; a probe may have none. */
  type Images = seq<Option<Image>>

  function CountSpecs(images: Images): (n: nat)
    ensures n <= |images|
  {
    if images == [] then 0
    else CountSpecs(images[..|images| - 1]) + if images[|images| - 1].Some? then 1 else 0
  }

  /** The ID handed to the next probe that has a specification. */
  function NextID(images: Images, start: u32): u32 {
    (start + CountSpecs(images)) % TWO_32
  }

  function IDAt(images: Images, start: u32, i: nat): u32
    requires i < |images|
  {
    if images[i].Some? then NextID(images[..i], start) else 0
  }

  function IDs(images: Images, start: u32): (ids: seq<u32>)
    ensures |ids| == |images|
    ensures forall i :: 0 <= i < |images| ==> ids[i] == IDAt(images, start, i)
  {
    seq(|images|, i requires 0 <= i < |images| => IDAt(images, start, i))
  }

  /** The map after storing every specification, in order. */
  function Stored(entries: SpecMap, images: Images, start: u32): SpecMap {
    if images == [] then entries
    else
      var init, last := images[..|images| - 1], images[|images| - 1];
      var before := Stored(entries, init, start);
      if last.Some? then before[NextID(init, start) := last.value] else before
  }

  lemma PrefixStep(entries: SpecMap, images: Images, start: u32, i: nat)
    requires i < |images|
    ensures CountSpecs(images[..i + 1]) == CountSpecs(images[..i]) + if images[i].Some? then 1 else 0
    ensures Stored(entries, images[..i + 1], start) ==
      var before := Stored(entries, images[..i], start);
      if images[i].Some?
      then before[NextID(images[..i], start) := images[i].value]
      else before
  {
    assert images[..i + 1][..i] == images[..i];
  }

  // ----- the range of IDs -----

  /** IDs are positive and do not wrap. */
  predicate InRange(images: Images, start: u32) {
    1 <= start && start + CountSpecs(images) <= TWO_32
  }

  lemma {:induction false} CountMonotone(images: Images, i: nat, j: nat)
    requires i <= j <= |images|
    ensures CountSpecs(images[..i]) <= CountSpecs(images[..j])
    ensures i < j && images[i].Some? ==> CountSpecs(images[..i]) < CountSpecs(images[..j])
    decreases j - i
  {
    if i < j {
      PrefixStep(map[], images, 0, i);
      CountMonotone(images, i + 1, j);
    }
  }

  lemma NoWrap(start: int, n: int)
    requires 0 <= start + n < TWO_32
    ensures (start + n) % TWO_32 == start + n
  {
  }

  lemma IDWithoutWrap(images: Images, start: u32, i: nat)
    requires InRange(images, start) && i < |images| && images[i].Some?
    ensures IDAt(images, start, i) == start + CountSpecs(images[..i])
    ensures start <= IDAt(images, start, i) < start + CountSpecs(images)
  {
    CountMonotone(images, i, |images|);
    assert images[..|images|] == images;
    NoWrap(start, CountSpecs(images[..i]));
  }

  /** ID 0 marks exactly the probes without a specification; the others get distinct, rising IDs. */
  lemma AllocationDistinct(images: Images, start: u32, i: nat, j: nat)
    requires InRange(images, start) && i < j < |images|
    ensures IDAt(images, start, i) == 0 <==> !images[i].Some?
    ensures images[i].Some? && images[j].Some? ==>
      IDAt(images, start, i) < IDAt(images, start, j)
  {
    if images[i].Some? {
      IDWithoutWrap(images, start, i);
      if images[j].Some? {
        IDWithoutWrap(images, start, j);
        CountMonotone(images, i, j);
      }
    }
  }

  function NonZero(ids: seq<u32>): seq<u32> {
    if ids == [] then []
    else
      var init, last := ids[..|ids| - 1], ids[|ids| - 1];
      NonZero(init) + if last != 0 then [last] else []
  }

  function Consecutive(start: u32, n: nat): (r: seq<u32>)
    requires start + n <= TWO_32
    ensures |r| == n
  {
    seq(n, k requires 0 <= k < n => start + k)
  }

  lemma RangePrefix(images: Images, start: u32, n: nat)
    requires n <= |images| && InRange(images, start)
    ensures InRange(images[..n], start)
  {
    CountMonotone(images, n, |images|);
    assert images[..|images|] == images;
  }

  lemma IDsPrefix(images: Images, start: u32, n: nat)
    requires n <= |images|
    ensures IDs(images[..n], start) == IDs(images, start)[..n]
  {
    forall i | 0 <= i < n ensures IDs(images[..n], start)[i] == IDs(images, start)[i] {
      assert images[..n][..i] == images[..i];
    }
  }

  /** In probe order, the nonzero IDs are start, start + 1, and so on. */
  lemma {:induction false} AllocationConsecutive(images: Images, start: u32)
    requires InRange(images, start)
    ensures NonZero(IDs(images, start)) == Consecutive(start, CountSpecs(images))
    decreases |images|
  {
    if images != [] {
      var k := |images| - 1;
      RangePrefix(images, start, k);
      AllocationConsecutive(images[..k], start);
      IDsPrefix(images, start, k);
      var n := CountSpecs(images[..k]);
      if images[k].Some? {
        IDWithoutWrap(images, start, k);
        assert Consecutive(start, n + 1) == Consecutive(start, n) + [start + n];
      }
    }
  }

  // ----- what a key holds -----

  /** The last probe whose specification is stored under a key. */
  function Holder(images: Images, start: u32, key: u32): (h: Option<nat>)
    ensures h.Some? ==>
      h.value < |images| && images[h.value].Some? && IDAt(images, start, h.value) == key
  {
    if images == [] then None
    else
      var k := |images| - 1;
      if images[k].Some? && NextID(images[..k], start) == key then Some(k)
      else
        var h := Holder(images[..k], start, key);
        assert h.Some? ==> images[..k][..h.value] == images[..h.value];
        h
  }

  /** Looking a key up after all specifications are stored, for every start ID and every count. */
  lemma {:induction false} StoredLookup(entries: SpecMap, images: Images, start: u32, key: u32)
    ensures var specs, h := Stored(entries, images, start), Holder(images, start, key);
      && (key in specs <==> h.Some? || key in entries)
      && (key in specs ==> specs[key] == if h.Some? then images[h.value].value else entries[key])
    decreases |images|
  {
    if images != [] {
      StoredLookup(entries, images[..|images| - 1], start, key);
    }
  }

  /** How far a key lies from the start ID, counting upwards through the wrap. */
  function Position(start: u32, key: u32): nat {
    (key - start) % TWO_32
  }

  /** Fewer than 2^32 specifications follow that of probe `i`, so its ID is not handed out again. */
  predicate NotReused(images: Images, i: nat)
    requires i < |images|
  {
    CountSpecs(images) - CountSpecs(images[..i]) <= TWO_32
  }

  lemma PositionOfNext(start: u32, n: nat, key: u32)
    ensures (start + n) % TWO_32 == key <==> n % TWO_32 == Position(start, key)
  {
  }

  lemma SameResidue(a: nat, b: nat)
    requires a % TWO_32 == b % TWO_32 && a <= b < a + TWO_32
    ensures a == b
  {
  }

  /** The keys in use are the first ones from the start ID on, as many as there are specifications. */
  lemma {:induction false} HolderExact(images: Images, start: u32, key: u32)
    ensures var h := Holder(images, start, key);
      && (h.Some? <==> Position(start, key) < CountSpecs(images))
      && (h.Some? ==> CountSpecs(images[..h.value]) % TWO_32 == Position(start, key) && NotReused(images, h.value))
    decreases |images|
  {
    if images != [] {
      var k := |images| - 1;
      var n, h := CountSpecs(images[..k]), Holder(images[..k], start, key);
      PositionOfNext(start, n, key);
      HolderExact(images[..k], start, key);
      if h.Some? {
        assert images[..k][..h.value] == images[..h.value];
        NotTaken(n, CountSpecs(images[..h.value]), Position(start, key));
      }
    }
  }

  lemma NotTaken(n: nat, c: nat, pos: nat)
    requires c % TWO_32 == pos && n <= c + TWO_32
    ensures n % TWO_32 != pos ==> n < c + TWO_32
  {
  }

  lemma SameCountSameProbe(images: Images, i: nat, j: nat)
    requires i < |images| && j < |images| && images[i].Some? && images[j].Some?
    requires CountSpecs(images[..i]) == CountSpecs(images[..j])
    ensures i == j
  {
    if i < j {
      CountMonotone(images, i, j);
    } else {
      CountMonotone(images, j, i);
    }
  }

  lemma EarlierProbe(images: Images, i: nat, j: nat)
    requires i < |images| && j < |images| && CountSpecs(images[..i]) < CountSpecs(images[..j])
    ensures i < j
  {
    if j <= i {
      CountMonotone(images, j, i);
    }
  }

  lemma CountBefore(images: Images, i: nat)
    requires i < |images| && images[i].Some?
    ensures CountSpecs(images[..i]) < CountSpecs(images)
  {
    CountMonotone(images, i, |images|);
    assert images[..|images|] == images;
  }

  /** A probe's ID leads to its own specification exactly when fewer than 2^32 others follow. */
  lemma HolderOfID(images: Images, start: u32, i: nat)
    requires i < |images| && images[i].Some?
    ensures Holder(images, start, IDAt(images, start, i)).Some?
    ensures Holder(images, start, IDAt(images, start, i)) == Some(i) <==> NotReused(images, i)
  {
    var key := IDAt(images, start, i);
    var c := CountSpecs(images[..i]);
    CountBefore(images, i);
    PositionOfNext(start, c, key);
    HolderExact(images, start, key);
    var h := Holder(images, start, key).value;
    var c' := CountSpecs(images[..h]);
    if NotReused(images, i) {
      CountBefore(images, h);
      if c <= c' {
        SameResidue(c, c');
      } else {
        SameResidue(c', c);
      }
      SameCountSameProbe(images, i, h);
    }
  }

  /** The map holds, under each probe's ID, exactly that probe's specification. */
  lemma StoredAtID(entries: SpecMap, images: Images, start: u32, i: nat)
    requires i < |images| && images[i].Some? && NotReused(images, i)
    ensures IDAt(images, start, i) in Stored(entries, images, start)
    ensures Stored(entries, images, start)[IDAt(images, start, i)] == images[i].value
  {
    HolderOfID(images, start, i);
    StoredLookup(entries, images, start, IDAt(images, start, i));
  }

  /** Every key outside the allocated ones keeps its value (or its absence). */
  lemma StoredElsewhere(entries: SpecMap, images: Images, start: u32, key: u32)
    requires Position(start, key) >= CountSpecs(images)
    ensures key in Stored(entries, images, start) <==> key in entries
    ensures key in entries ==> Stored(entries, images, start)[key] == entries[key]
  {
    HolderExact(images, start, key);
    StoredLookup(entries, images, start, key);
  }

  // ----- key 0 -----

  /** Nothing is stored under key 0: there is nothing to store, or the IDs stay positive. */
  predicate ZeroUnused(images: Images, start: u32) {
    CountSpecs(images) == 0 || InRange(images, start)
  }

  lemma ZeroHolder(images: Images, start: u32)
    ensures Holder(images, start, 0).None? <==> ZeroUnused(images, start)
  {
    HolderExact(images, start, 0);
  }

  /** ID 0 marks exactly the probes without a specification if and only if nothing is stored under key 0. */
  lemma ZeroMarksExactly(images: Images, start: u32)
    ensures (forall i :: 0 <= i < |images| ==> (IDAt(images, start, i) == 0 <==> images[i].None?))
      <==> ZeroUnused(images, start)
  {
    ZeroHolder(images, start);
    if ZeroUnused(images, start) {
      forall i | 0 <= i < |images| ensures IDAt(images, start, i) == 0 <==> images[i].None? {
        if images[i].Some? {
          HolderOfID(images, start, i);
        }
      }
    }
  }

  // ----- the allocation loop -----

  /** Which calls to a kernel object fail, in the order they are made; later ones succeed. */
  type Schedule = seq<bool>

  predicate Fails(fails: Schedule, call: nat) {
    call < |fails| && fails[call]
  }

  /** Where a run of the allocation loop starts, and which Put calls will fail. */
  datatype Run = Run(entries: SpecMap, calls: nat, fails: Schedule, start: u32)

  /** None of the next `n` calls is scheduled to fail. */
  ghost predicate NoneFails(fails: Schedule, calls: nat, n: nat) {
    forall c :: calls <= c < calls + n ==> !Fails(fails, c)
  }

  /** The IDs assigned so far: those of the first `i` probes, then zeros. */
  ghost predicate Assigned(images: Images, start: u32, i: nat, ids: seq<u32>) {
    && i <= |images| == |ids|
    && (forall j :: 0 <= j < i ==> ids[j] == IDAt(images, start, j))
    && (forall j :: i <= j < |ids| ==> ids[j] == 0)
  }

  /** The state of the loop after `i` probes, none of whose Puts failed. */
  ghost predicate Progress(
    run: Run, images: Images, i: nat, ids: seq<u32>, nextID: u32, entries: SpecMap, calls: nat)
  {
    && Assigned(images, run.start, i, ids)
    && nextID == NextID(images[..i], run.start)
    && calls == run.calls + CountSpecs(images[..i])
    && NoneFails(run.fails, run.calls, CountSpecs(images[..i]))
    && entries == Stored(run.entries, images[..i], run.start)
  }

  lemma ProgressStart(run: Run, images: Images, ids: seq<u32>)
    requires |ids| == |images| && forall i :: 0 <= i < |ids| ==> ids[i] == 0
    ensures Progress(run, images, 0, ids, run.start, run.entries, run.calls)
  {
    NoWrap(run.start, 0);
  }

  lemma ProgressSkip(
    run: Run, images: Images, i: nat, ids: seq<u32>, nextID: u32, entries: SpecMap, calls: nat)
    requires i < |images| && images[i].None? && Progress(run, images, i, ids, nextID, entries, calls)
    ensures Progress(run, images, i + 1, ids, nextID, entries, calls)
  {
    PrefixStep(run.entries, images, run.start, i);
  }

  lemma AssignNext(images: Images, start: u32, i: nat, ids: seq<u32>, id: u32)
    requires i < |images| && Assigned(images, start, i, ids) && id == IDAt(images, start, i)
    ensures Assigned(images, start, i + 1, ids[i := id])
  {
  }

  lemma ProgressPut(
    run: Run, images: Images, i: nat, ids: seq<u32>, nextID: u32, entries: SpecMap, calls: nat)
    requires i < |images| && images[i].Some? && Progress(run, images, i, ids, nextID, entries, calls)
    requires !Fails(run.fails, calls)
    ensures Progress(
      run, images, i + 1, ids[i := nextID], (nextID + 1) % TWO_32, entries[nextID := images[i].value], calls + 1)
  {
    PrefixStep(run.entries, images, run.start, i);
    NextIDStep(images, run.start, i);
    AssignNext(images, run.start, i, ids, nextID);
  }

  /**
   The outcome of a run. It succeeds exactly when no Put fails; then the IDs and the map are those of
   all probes. Otherwise it reports the probe whose Put was the first to fail, the map holds the
   specifications before it, and no call follows.
   */
  ghost predicate Outcome(
    run: Run, images: Images, r: Result<seq<u32>, nat>, entries: SpecMap, calls: nat)
  {
    && (r.Ok? <==> NoneFails(run.fails, run.calls, CountSpecs(images)))
    && match r
       case Ok(ids) =>
         && ids == IDs(images, run.start)
         && entries == Stored(run.entries, images, run.start)
         && calls == run.calls + CountSpecs(images)
       case Err(k) =>
         && k < |images| && images[k].Some?
         && NoneFails(run.fails, run.calls, CountSpecs(images[..k]))
         && Fails(run.fails, run.calls + CountSpecs(images[..k]))
         && entries == Stored(run.entries, images[..k], run.start)
         && calls == run.calls + CountSpecs(images[..k]) + 1
  }

  lemma ProgressFail(
    run: Run, images: Images, i: nat, ids: seq<u32>, nextID: u32, entries: SpecMap, calls: nat)
    requires i < |images| && images[i].Some? && Progress(run, images, i, ids, nextID, entries, calls)
    requires Fails(run.fails, calls)
    ensures Outcome(run, images, Err(i), entries, calls + 1)
  {
    CountMonotone(images, i, |images|);
    assert images[..|images|] == images;
  }

  lemma NextIDStep(images: Images, start: u32, i: nat)
    requires i < |images| && images[i].Some?
    ensures NextID(images[..i + 1], start) == (NextID(images[..i], start) + 1) % TWO_32
  {
    PrefixStep(map[], images, start, i);
    WrapIncrement(start + CountSpecs(images[..i]));
  }

  lemma WrapIncrement(x: int)
    ensures (x % TWO_32 + 1) % TWO_32 == (x + 1) % TWO_32
  {
  }

  lemma ProgressDone(run: Run, images: Images, ids: seq<u32>, nextID: u32, entries: SpecMap, calls: nat)
    requires Progress(run, images, |images|, ids, nextID, entries, calls)
    ensures Outcome(run, images, Ok(ids), entries, calls)
  {
    assert images[..|images|] == images;
    assert ids == IDs(images, run.start);
  }

  // ----- deletion -----

  /** Map, number of errors and number of calls after some deletions. */
  datatype Deletion = Deletion(entries: SpecMap, errors: nat, calls: nat)

  /** One ID: 0 is skipped; a call fails when its turn says so or when the key is missing. */
  function DeleteOne(d: Deletion, id: u32, fails: Schedule): Deletion {
    if id == 0 then d
    else if Fails(fails, d.calls) || id !in d.entries then Deletion(d.entries, d.errors + 1, d.calls + 1)
    else Deletion(d.entries - {id}, d.errors, d.calls + 1)
  }

  /** Deleting every nonzero ID in order, carrying on after errors. */
  function DeleteAll(entries: SpecMap, ids: seq<u32>, fails: Schedule, calls: nat): (d: Deletion)
    ensures calls <= d.calls <= calls + |ids|
  {
    if ids == [] then Deletion(entries, 0, calls)
    else DeleteOne(DeleteAll(entries, ids[..|ids| - 1], fails, calls), ids[|ids| - 1], fails)
  }

  function CountNonZero(ids: seq<u32>): nat {
    if ids == [] then 0
    else CountNonZero(ids[..|ids| - 1]) + if ids[|ids| - 1] != 0 then 1 else 0
  }

  /** ID `i` is passed to Delete and that call is not scheduled to fail. */
  ghost predicate Passes(ids: seq<u32>, fails: Schedule, calls: nat, i: nat)
    requires i < |ids|
  {
    ids[i] != 0 && !Fails(fails, calls + CountNonZero(ids[..i]))
  }

  /** Some earlier ID, among the first `i`, has already removed the key. */
  ghost predicate Gone(ids: seq<u32>, fails: Schedule, calls: nat, i: nat, key: u32)
    requires i <= |ids|
  {
    exists j: nat :: j < i && ids[j] == key && Passes(ids, fails, calls, j)
  }

  /** The deletion of ID `i` is an error: its call fails, or its key is missing or already gone. */
  ghost predicate Misses(entries: SpecMap, ids: seq<u32>, fails: Schedule, calls: nat, i: nat)
    requires i < |ids|
  {
    && ids[i] != 0
    && (!Passes(ids, fails, calls, i) || ids[i] !in entries || Gone(ids, fails, calls, i, ids[i]))
  }

  ghost function Missed(entries: SpecMap, ids: seq<u32>, fails: Schedule, calls: nat, n: nat): set<nat>
    requires n <= |ids|
  {
    set i: nat | i < n && Misses(entries, ids, fails, calls, i)
  }

  /** What is left of the map after the first `n` IDs. */
  ghost predicate LeftBy(entries: SpecMap, ids: seq<u32>, fails: Schedule, calls: nat, n: nat, left: SpecMap)
    requires n <= |ids|
  {
    && (forall key: u32 :: key in left <==> key in entries && !Gone(ids, fails, calls, n, key))
    && (forall key: u32 :: key in left ==> left[key] == entries[key])
  }

  lemma GoneStep(ids: seq<u32>, fails: Schedule, calls: nat, n: nat, key: u32)
    requires n < |ids|
    ensures Gone(ids, fails, calls, n + 1, key) <==>
      Gone(ids, fails, calls, n, key) || (ids[n] == key && Passes(ids, fails, calls, n))
  {
  }

  lemma MissedStep(entries: SpecMap, ids: seq<u32>, fails: Schedule, calls: nat, n: nat)
    requires n < |ids|
    ensures |Missed(entries, ids, fails, calls, n + 1)|
      == |Missed(entries, ids, fails, calls, n)| + if Misses(entries, ids, fails, calls, n) then 1 else 0
  {
    var before, after := Missed(entries, ids, fails, calls, n), Missed(entries, ids, fails, calls, n + 1);
    if Misses(entries, ids, fails, calls, n) {
      assert after == before + {n};
    } else {
      assert after == before;
    }
  }

  lemma LeftByStep(entries: SpecMap, ids: seq<u32>, fails: Schedule, calls: nat, n: nat, left: SpecMap)
    requires n < |ids| && LeftBy(entries, ids, fails, calls, n, left)
    ensures LeftBy(entries, ids, fails, calls, n + 1, if Passes(ids, fails, calls, n) then left - {ids[n]} else left)
  {
    forall key: u32 ensures Gone(ids, fails, calls, n + 1, key) <==>
      Gone(ids, fails, calls, n, key) || (ids[n] == key && Passes(ids, fails, calls, n))
    {
      GoneStep(ids, fails, calls, n, key);
    }
  }

  /** The state after the first `n` IDs, whatever failed. */
  ghost predicate DeletedBy(entries: SpecMap, ids: seq<u32>, fails: Schedule, calls: nat, n: nat, d: Deletion)
    requires n <= |ids|
  {
    && LeftBy(entries, ids, fails, calls, n, d.entries)
    && d.errors == |Missed(entries, ids, fails, calls, n)|
    && d.calls == calls + CountNonZero(ids[..n])
  }

  lemma DeletedStep(entries: SpecMap, ids: seq<u32>, fails: Schedule, calls: nat, n: nat, d: Deletion)
    requires n < |ids| && DeletedBy(entries, ids, fails, calls, n, d)
    ensures DeletedBy(entries, ids, fails, calls, n + 1, DeleteOne(d, ids[n], fails))
  {
    var id, left := ids[n], if Passes(ids, fails, calls, n) then d.entries - {ids[n]} else d.entries;
    assert ids[..n + 1][..n] == ids[..n];
    LeftByStep(entries, ids, fails, calls, n, d.entries);
    MissedStep(entries, ids, fails, calls, n);
    assert id in d.entries <==> id in entries && !Gone(ids, fails, calls, n, id);
    assert DeleteOne(d, id, fails).entries == left;
  }

  /**
   Deleting IDs under any schedule: an ID whose call does not fail removes its key, the other keys
   stay, and the errors are the IDs whose call fails or whose key is not there (any more).
   */
  lemma {:induction false} DeleteUnderFailures(
    entries: SpecMap, ids: seq<u32>, fails: Schedule, calls: nat, n: nat)
    requires n <= |ids|
    ensures DeletedBy(entries, ids, fails, calls, n, DeleteAll(entries, ids[..n], fails, calls))
  {
    if n == 0 {
      assert Missed(entries, ids, fails, calls, 0) == {};
    } else {
      DeleteUnderFailures(entries, ids, fails, calls, n - 1);
      assert ids[..n][..n - 1] == ids[..n - 1];
      DeletedStep(entries, ids, fails, calls, n - 1, DeleteAll(entries, ids[..n - 1], fails, calls));
    }
  }

  /** A map without the nonzero ones of some keys. */
  function Surviving(entries: SpecMap, ids: seq<u32>): SpecMap {
    map key | key in entries && (key == 0 || key !in ids) :: entries[key]
  }

  /** Every nonzero ID is in the map, and none is listed twice. */
  ghost predicate Deletable(entries: SpecMap, ids: seq<u32>) {
    forall i :: 0 <= i < |ids| && ids[i] != 0 ==> ids[i] in entries && ids[i] !in ids[..i]
  }

  /** When no call fails, exactly the nonzero IDs go, and errors mean keys missing or listed twice. */
  lemma {:induction false} DeleteAllExact(entries: SpecMap, ids: seq<u32>, fails: Schedule, calls: nat)
    requires NoneFails(fails, calls, |ids|)
    ensures DeleteAll(entries, ids, fails, calls).entries == Surviving(entries, ids)
    ensures DeleteAll(entries, ids, fails, calls).errors == 0 <==> Deletable(entries, ids)
    decreases |ids|
  {
    if ids != [] {
      var n := |ids| - 1;
      var init, id := ids[..n], ids[n];
      DeleteAllExact(entries, init, fails, calls);
      assert ids == init + [id];
      DeletableStep(entries, ids);
      SurvivingStep(entries, init, id);
    }
  }

  lemma SurvivingStep(entries: SpecMap, init: seq<u32>, id: u32)
    ensures var before, after := Surviving(entries, init), Surviving(entries, init + [id]);
      after == if id == 0 then before else before - {id}
  {
  }

  lemma DeletableStep(entries: SpecMap, ids: seq<u32>)
    requires ids != []
    ensures var init, id := ids[..|ids| - 1], ids[|ids| - 1];
      Deletable(entries, ids) <==> Deletable(entries, init) && (id != 0 ==> id in Surviving(entries, init))
  {
    var n := |ids| - 1;
    assert forall i :: 0 <= i < n ==> ids[..n][..i] == ids[..i];
  }

  /** None of the keys about to be allocated is in use. */
  predicate Vacant(entries: SpecMap, images: Images, start: u32) {
    forall key: u32 :: Position(start, key) < CountSpecs(images) ==> key !in entries
  }

  lemma IDIsHeld(images: Images, start: u32, key: u32)
    requires key != 0
    ensures key in IDs(images, start) <==> Holder(images, start, key).Some?
  {
    if key in IDs(images, start) {
      var i :| 0 <= i < |images| && IDs(images, start)[i] == key;
      HolderOfID(images, start, i);
    }
  }

  /**
   Storing and then deleting the returned IDs, on any map that lacked the allocated keys, for every
   start ID: a specification stored under key 0 is left behind, and everything else is as before.
   */
  lemma DeleteLeavesZero(entries: SpecMap, images: Images, start: u32, fails: Schedule, calls: nat)
    requires Vacant(entries, images, start) && NoneFails(fails, calls, |images|)
    ensures DeleteAll(Stored(entries, images, start), IDs(images, start), fails, calls).entries
      == match Holder(images, start, 0)
         case None => entries
         case Some(i) => entries[0 := images[i].value]
  {
    var specs, ids := Stored(entries, images, start), IDs(images, start);
    DeleteAllExact(specs, ids, fails, calls);
    var h := Holder(images, start, 0);
    var left := if h.Some? then entries[0 := images[h.value].value] else entries;
    forall key: u32 ensures Agree(Surviving(specs, ids), left, key) {
      SurvivorAt(entries, images, start, key);
    }
    SameMap(Surviving(specs, ids), left);
  }

  /** Two maps say the same about a key. */
  ghost predicate Agree(m: SpecMap, m': SpecMap, key: u32) {
    (key in m <==> key in m') && (key in m ==> m[key] == m'[key])
  }

  lemma SameMap(m: SpecMap, m': SpecMap)
    requires forall key: u32 :: Agree(m, m', key)
    ensures m == m'
  {
    forall key | key in m || key in m' ensures key in m && key in m' && m[key] == m'[key] {
      assert Agree(m, m', key);
    }
  }

  lemma SurvivorAt(entries: SpecMap, images: Images, start: u32, key: u32)
    requires Vacant(entries, images, start)
    ensures var h := Holder(images, start, 0);
      Agree(Surviving(Stored(entries, images, start), IDs(images, start)),
            if h.Some? then entries[0 := images[h.value].value] else entries, key)
  {
    StoredLookup(entries, images, start, key);
    HolderExact(images, start, key);
    if key != 0 {
      IDIsHeld(images, start, key);
    }
  }

  /**
   The map is restored if and only if nothing was stored under key 0, that is unless the start ID is 0
   or the IDs wrap through it.
   */
  lemma DeleteRestores(entries: SpecMap, images: Images, start: u32, fails: Schedule, calls: nat)
    requires Vacant(entries, images, start) && NoneFails(fails, calls, |images|)
    ensures DeleteAll(Stored(entries, images, start), IDs(images, start), fails, calls).entries == entries
      <==> CountSpecs(images) == 0 || InRange(images, start)
  {
    DeleteLeavesZero(entries, images, start, fails, calls);
    ZeroHolder(images, start);
    HolderExact(images, start, 0);
  }

  lemma {:induction false} NthSpec(images: Images, n: nat) returns (i: nat)
    requires n < CountSpecs(images)
    ensures i < |images| && images[i].Some? && CountSpecs(images[..i]) == n
    decreases |images|
  {
    var k := |images| - 1;
    if n < CountSpecs(images[..k]) {
      i := NthSpec(images[..k], n);
      assert images[..k][..i] == images[..i];
    } else {
      i := k;
    }
  }

  /**
   No deletion misses its key if and only if no nonzero ID was handed out twice: up to 2^32
   specifications, and one more when the first and the last of them share key 0.
   */
  lemma DeleteErrors(entries: SpecMap, images: Images, start: u32, fails: Schedule, calls: nat)
    requires NoneFails(fails, calls, |images|)
    ensures DeleteAll(Stored(entries, images, start), IDs(images, start), fails, calls).errors == 0
      <==> CountSpecs(images) <= TWO_32 + if start == 0 then 1 else 0
  {
    var specs, ids := Stored(entries, images, start), IDs(images, start);
    DeleteAllExact(specs, ids, fails, calls);
    if CountSpecs(images) <= TWO_32 + if start == 0 then 1 else 0 {
      forall i | 0 <= i < |ids| && ids[i] != 0 ensures ids[i] in specs && ids[i] !in ids[..i] {
        HolderOfID(images, start, i);
        StoredLookup(entries, images, start, ids[i]);
        IDNotRepeated(images, start, i);
      }
    } else {
      var i, j := RepeatedID(images, start);
      assert ids[j] == ids[..j][i];
    }
  }

  lemma RepeatedID(images: Images, start: u32) returns (i: nat, j: nat)
    requires CountSpecs(images) > TWO_32 + if start == 0 then 1 else 0
    ensures i < j < |images| && IDs(images, start)[i] == IDs(images, start)[j] != 0
  {
    var n := if start == 0 then 1 else 0;
    i := NthSpec(images, n);
    j := NthSpec(images, TWO_32 + n);
    EarlierProbe(images, i, j);
    SameNext(start, n);
  }

  lemma SameNext(start: u32, n: nat)
    ensures (start + n) % TWO_32 == (start + (TWO_32 + n)) % TWO_32
  {
  }

  lemma IDNotRepeated(images: Images, start: u32, i: nat)
    requires i < |images| && IDAt(images, start, i) != 0
    requires CountSpecs(images) <= TWO_32 + if start == 0 then 1 else 0
    ensures IDAt(images, start, i) !in IDs(images, start)[..i]
  {
    forall j | 0 <= j < i ensures IDAt(images, start, j) != IDAt(images, start, i) {
      if images[j].Some? {
        IDsDiffer(images, start, j, i);
      }
    }
  }

  lemma IDsDiffer(images: Images, start: u32, j: nat, i: nat)
    requires j < i < |images| && images[j].Some? && images[i].Some? && IDAt(images, start, i) != 0
    requires CountSpecs(images) <= TWO_32 + if start == 0 then 1 else 0
    ensures IDAt(images, start, j) != IDAt(images, start, i)
  {
    var c, c' := CountSpecs(images[..j]), CountSpecs(images[..i]);
    CountMonotone(images, j, i);
    CountBefore(images, i);
    assert c < c' < TWO_32 + if start == 0 then 1 else 0;
    assert IDAt(images, start, j) == (start + c) % TWO_32 && IDAt(images, start, i) == (start + c') % TWO_32;
    if IDAt(images, start, j) != 0 {
      DistinctNext(start, c, c');
    }
  }

  lemma DistinctNext(start: u32, c: nat, c': nat)
    requires c < c' < TWO_32 + if start == 0 then 1 else 0
    requires (start + c) % TWO_32 != 0
    ensures (start + c') % TWO_32 != (start + c) % TWO_32
  {
    var key := (start + c) % TWO_32;
    PositionOfNext(start, c, key);
    PositionOfNext(start, c', key);
    if c' < c + TWO_32 && c % TWO_32 == c' % TWO_32 {
      SameResidue(c, c');
    }
  }

  /** Without the IDs nothing is deleted: the map is restored only if nothing was stored. */
  lemma StoredUnchanged(entries: SpecMap, images: Images, start: u32)
    requires Vacant(entries, images, start)
    ensures Stored(entries, images, start) == entries <==> CountSpecs(images) == 0
  {
    HolderExact(images, start, start);
    StoredLookup(entries, images, start, start);
    assert Position(start, start) == 0;
    if CountSpecs(images) == 0 {
      forall key: u32 ensures Agree(Stored(entries, images, start), entries, key) {
        StoredElsewhere(entries, images, start, key);
      }
      SameMap(Stored(entries, images, start), entries);
    }
  }

  // ----- cookies -----

  function CookieAt(ids: seq<u32>, cookies: seq<u64>, i: nat): u64 {
    (if i < |ids| then ids[i] * TWO_32 else 0) + (if i < |cookies| then cookies[i] % TWO_32 else 0)
  }

  function Merged(ids: seq<u32>, cookies: seq<u64>): (r: seq<u64>)
    ensures |r| == if |cookies| > |ids| then |cookies| else |ids|
  {
    seq(if |cookies| > |ids| then |cookies| else |ids|, i requires 0 <= i => CookieAt(ids, cookies, i))
  }

  /** Fills one cookie per ID or user cookie, whichever list is longer. */
  method MergeCookies(specIDs: seq<u32>, userCookies: seq<u64>) returns (out: array<u64>)
    ensures fresh(out) && out[..] == Merged(specIDs, userCookies)
  {
    var n := |specIDs|;
    if |userCookies| > n {
      n := |userCookies|;
    }
    out := new u64[n](_ => 0);
    for i := 0 to n
      invariant forall j :: 0 <= j < i ==> out[j] == CookieAt(specIDs, userCookies, j)
      invariant forall j :: i <= j < n ==> out[j] == 0
    {
      if i < |specIDs| {
        out[i] := specIDs[i] * TWO_32;
      }
      if i < |userCookies| {
        // The low half is still zero, so the bitwise or is a sum.
        out[i] := out[i] + userCookies[i] % TWO_32;
      }
    }
  }

  /** The BPF side splits a merged cookie into the two values that went in. */
  lemma CookieHalves(ids: seq<u32>, cookies: seq<u64>, i: nat)
    requires i < |Merged(ids, cookies)|
    ensures UserCookie(Merged(ids, cookies)[i]) == if i < |cookies| then cookies[i] % TWO_32 else 0
    ensures var id := if i < |ids| then ids[i] else 0;
      && (SpecID(Merged(ids, cookies)[i]) >= 0 <==> id < 0x8000_0000)
      && (id < 0x8000_0000 ==> SpecID(Merged(ids, cookies)[i]) == id)
  {
  }
}
