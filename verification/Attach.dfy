/**
 Storing specifications in the BPF map, attaching uprobes with rollback, and unloading. The kernel
 objects may fail on any call: a failure schedule decides, call by call.
 */
module Attach {
  import opened Wrappers
  import opened Machine
  import opened Registers
  import opened Specs
  import opened ArgLists
  import opened ArgInterpreter
  import opened StapsdtNotes
  import opened SpecAllocation

  /** A probe with its texts decoded. */
  type TextProbe = Probe<string>

  /** The build: the architecture and its byte order. */
  datatype Target = Target(arch: Arch, endian: Endian)

  /** What is stored for a probe: nothing when its arguments are empty or do not parse. */
  function ImageOf(t: Target, p: TextProbe): Option<Image> {
    if p.arguments == [] then None
    else match ParseArguments(t.arch, p.arguments)
      case Err(_) => None
      case Ok(spec) => Some(SpecToBytes(t.endian, spec))
  }

  function ImagesOf(t: Target, probes: seq<TextProbe>): (images: Images)
    ensures |images| == |probes|
  {
    if probes == [] then [] else ImagesOf(t, probes[..|probes| - 1]) + [ImageOf(t, probes[|probes| - 1])]
  }

  lemma {:induction false} ImagesAt(t: Target, probes: seq<TextProbe>, i: nat)
    requires i < |probes|
    ensures ImagesOf(t, probes)[i] == ImageOf(t, probes[i])
  {
    if i < |probes| - 1 {
      ImagesAt(t, probes[..|probes| - 1], i);
    }
  }

  /** A probe's argument string is stored: it is not empty and it is accepted. */
  ghost predicate HasSpecification(t: Target, text: string) {
    text != [] && AcceptedList(t.arch, text)
  }

  /** A probe has an image if and only if its text has a specification, and the image is that one's. */
  lemma ImageExactly(t: Target, probes: seq<TextProbe>, i: nat)
    requires i < |probes|
    ensures ImagesOf(t, probes)[i] == ImageOf(t, probes[i])
    ensures ImagesOf(t, probes)[i].Some? <==> HasSpecification(t, probes[i].arguments)
    ensures ImagesOf(t, probes)[i].Some? ==>
      Ok(SpecFromBytes(t.endian, ImagesOf(t, probes)[i].value)) == ParseArguments(t.arch, probes[i].arguments)
  {
    ImagesAt(t, probes, i);
    ListAcceptedExactly(t.arch, probes[i].arguments);
    if ParseArguments(t.arch, probes[i].arguments).Ok? {
      SpecRoundTrip(t.endian, ParseArguments(t.arch, probes[i].arguments).value);
    }
  }

  // ----- kernel objects -----

  /** The `__bpf_usdt_specs` hash map. */
  class BpfMap {
    var entries: SpecMap
    var calls: nat
    const fails: Schedule

    constructor (entries: SpecMap, fails: Schedule)
      ensures this.entries == entries && calls == 0 && this.fails == fails
    {
      this.entries, this.calls, this.fails := entries, 0, fails;
    }

    method Put(id: u32, value: Image) returns (ok: bool)
      modifies this
      ensures calls == old(calls) + 1
      ensures ok == !Fails(fails, old(calls))
      ensures entries == if ok then old(entries)[id := value] else old(entries)
    {
      ok := !Fails(fails, calls);
      calls := calls + 1;
      if ok {
        entries := entries[id := value];
      }
    }

    method Delete(id: u32) returns (ok: bool)
      modifies this
      ensures calls == old(calls) + 1
      ensures ok == (!Fails(fails, old(calls)) && id in old(entries))
      ensures entries == if ok then old(entries) - {id} else old(entries)
    {
      ok := !Fails(fails, calls) && id in entries;
      calls := calls + 1;
      if ok {
        entries := entries - {id};
      }
    }
  }

  datatype UprobeOptions = UprobeOptions(address: u64, refCtrOffset: u64, cookie: u64)

  /** An attached uprobe; `closes` counts the calls to Close. */
  class Link {
    const symbol: string
    const prog: nat
    const opts: UprobeOptions
    const closeFails: bool
    var closes: nat

    constructor (symbol: string, prog: nat, opts: UprobeOptions, closeFails: bool)
      ensures this.symbol == symbol && this.prog == prog && this.opts == opts
      ensures this.closeFails == closeFails && closes == 0
    {
      this.symbol, this.prog, this.opts, this.closeFails, this.closes := symbol, prog, opts, closeFails, 0;
    }

    method Close() returns (ok: bool)
      modifies this
      ensures closes == old(closes) + 1 && ok == !closeFails
    {
      closes := closes + 1;
      ok := !closeFails;
    }
  }

  /** The traced executable; it remembers every link it made. */
  class Executable {
    var attached: seq<Link>
    var calls: nat
    const fails: Schedule
    const closeFails: Schedule

    constructor (fails: Schedule, closeFails: Schedule)
      ensures attached == [] && calls == 0 && this.fails == fails && this.closeFails == closeFails
    {
      this.attached, this.calls, this.fails, this.closeFails := [], 0, fails, closeFails;
    }

    method Uprobe(symbol: string, prog: nat, opts: UprobeOptions) returns (l: Option<Link>)
      modifies this
      ensures calls == old(calls) + 1
      ensures l.None? == Fails(fails, old(calls))
      ensures l.None? ==> attached == old(attached)
      ensures l.Some? ==>
        && fresh(l.value) && attached == old(attached) + [l.value]
        && l.value.symbol == symbol && l.value.prog == prog && l.value.opts == opts && l.value.closes == 0
    {
      var c := calls;
      calls := calls + 1;
      if Fails(fails, c) {
        return None;
      }
      var link := new Link(symbol, prog, opts, Fails(closeFails, c));
      attached := attached + [link];
      return Some(link);
    }
  }

  // ----- PopulateSpecMap -----

  /** One probe's specification as the map stores it, or none. */
  method SpecImage(t: Target, probes: seq<TextProbe>, i: nat) returns (image: Option<Image>)
    requires i < |probes|
    ensures image == ImagesOf(t, probes)[i]
  {
    var p := probes[i];
    ImagesAt(t, probes, i);
    if p.arguments == "" {
      return None;
    }
    var spec := ParseUSDTArguments(t.arch, p.arguments);
    if spec.Err? {
      return None;
    }
    return Some(SpecToBytes(t.endian, spec.value));
  }

  /** One round of the loop: the next probe gets an ID and its specification is stored. */
  method StoreNext(
      specMap: BpfMap, image: Option<Image>, i: nat, ids: seq<u32>, next: u32, ghost run: Run, ghost images: Images)
    returns (ok: bool, specIDs: seq<u32>, nextID: u32)
    requires i < |images| && image == images[i] && run.fails == specMap.fails
    requires Progress(run, images, i, ids, next, specMap.entries, specMap.calls)
    modifies specMap
    ensures ok ==> Progress(run, images, i + 1, specIDs, nextID, specMap.entries, specMap.calls)
    ensures !ok ==> Outcome(run, images, Err(i), specMap.entries, specMap.calls)
  {
    ok, specIDs, nextID := true, ids, next;
    if image.None? {
      ProgressSkip(run, images, i, ids, next, specMap.entries, specMap.calls);
      return;
    }
    if Fails(specMap.fails, specMap.calls) {
      ProgressFail(run, images, i, ids, next, specMap.entries, specMap.calls);
    } else {
      ProgressPut(run, images, i, ids, next, specMap.entries, specMap.calls);
    }
    var id := nextID;
    nextID := (nextID + 1) % TWO_32;
    specIDs := specIDs[i := id];
    ok := specMap.Put(id, image.value);
  }

  /**
   Parses every probe's arguments and stores the specifications under consecutive IDs. If a Put
   fails, that probe is the result, and the entries stored before it stay in the map.
   */
  method PopulateSpecMap(t: Target, specMap: BpfMap, probes: seq<TextProbe>, startID: u32)
    returns (r: Result<seq<u32>, nat>)
    modifies specMap
    ensures Outcome(
      Run(old(specMap.entries), old(specMap.calls), specMap.fails, startID),
      ImagesOf(t, probes), r, specMap.entries, specMap.calls)
    ensures forall i :: 0 <= i < |probes| ==>
      (ImagesOf(t, probes)[i].Some? <==> HasSpecification(t, probes[i].arguments))
  {
    forall i | 0 <= i < |probes|
      ensures ImagesOf(t, probes)[i].Some? <==> HasSpecification(t, probes[i].arguments)
    {
      ImageExactly(t, probes, i);
    }
    ghost var images, run := ImagesOf(t, probes), Run(specMap.entries, specMap.calls, specMap.fails, startID);
    var specIDs: seq<u32> := seq(|probes|, _ => 0);
    var nextID: u32 := startID;
    ProgressStart(run, images, specIDs);
    for i := 0 to |probes|
      invariant Progress(run, images, i, specIDs, nextID, specMap.entries, specMap.calls)
    {
      var image := SpecImage(t, probes, i);
      var ok;
      ok, specIDs, nextID := StoreNext(specMap, image, i, specIDs, nextID, run, images);
      if !ok {
        return Err(i);
      }
    }
    ProgressDone(run, images, specIDs, nextID, specMap.entries, specMap.calls);
    return Ok(specIDs);
  }

  // ----- AttachUprobes -----

  datatype AttachError = ProgramCount | AttachFailed(probe: nat)

  /** The options of the uprobe for probe `i`: file offsets, and its cookie if one was given. */
  function OptionsFor(p: TextProbe, cookies: Option<seq<u64>>, i: nat): UprobeOptions {
    UprobeOptions(p.location, p.semaphoreOffset,
                  if cookies.Some? && i < |cookies.value| then cookies.value[i] else 0)
  }

  /**
   An open link of a probe: it runs the program at the probe's file offset, with its semaphore, and
   with the cookie at its place in the list if there is one, else 0.
   */
  ghost predicate LinkFor(l: Link, p: TextProbe, prog: nat, cookies: Option<seq<u64>>, i: nat)
    reads l
  {
    && l.symbol == p.name && l.prog == prog && l.closes == 0
    && l.opts.address == p.location && l.opts.refCtrOffset == p.semaphoreOffset
    && (cookies.Some? && i < |cookies.value| ==> l.opts.cookie == cookies.value[i])
    && (cookies.None? || |cookies.value| <= i ==> l.opts.cookie == 0)
  }

  /** `links` are the open links of the first probes, in order. */
  ghost predicate LinksFor(links: seq<Link>, probes: seq<TextProbe>, progs: seq<nat>, cookies: Option<seq<u64>>)
    reads links
  {
    && |links| <= |probes| == |progs|
    && (forall i :: 0 <= i < |links| ==> LinkFor(links[i], probes[i], progs[i], cookies, i))
    && (forall i, j :: 0 <= i < j < |links| ==> links[i] != links[j])
  }

  /** The rollback: closes every link once. */
  method CloseAll(links: seq<Link>)
    requires forall i, j :: 0 <= i < j < |links| ==> links[i] != links[j]
    modifies links
    ensures forall i :: 0 <= i < |links| ==> links[i].closes == old(links[i].closes) + 1
  {
    for i := 0 to |links|
      invariant forall j :: 0 <= j < i ==> links[j].closes == old(links[j].closes) + 1
      invariant forall j :: i <= j < |links| ==> links[j].closes == old(links[j].closes)
    {
      var _ := links[i].Close();
    }
  }

  /**
   Attaches one program per probe, all or nothing: either every probe has its link, or the first
   failing probe is reported, no later one is tried, and every link that was opened on the way has
   been closed exactly once. The result carries no specification IDs.
   */
  method AttachUprobes(exe: Executable, specMap: BpfMap?, probes: seq<TextProbe>, progs: seq<nat>,
                       cookies: Option<seq<u64>>)
    returns (r: Result<ProbeLinks, AttachError>)
    modifies exe
    ensures |progs| != |probes| ==>
      r == Err(ProgramCount) && exe.attached == old(exe.attached) && exe.calls == old(exe.calls)
    ensures |progs| == |probes| ==> (r.Ok? <==> NoneFails(exe.fails, old(exe.calls), |probes|))
    ensures r.Ok? ==>
      && fresh(r.value) && fresh(r.value.links)
      && r.value.specIDs == [] && r.value.specMap == specMap
      && |r.value.links| == |probes| && LinksFor(r.value.links, probes, progs, cookies)
      && exe.attached == old(exe.attached) + r.value.links && exe.calls == old(exe.calls) + |probes|
    ensures |progs| == |probes| && r.Err? ==>
      && r.error.AttachFailed? && r.error.probe < |probes|
      && NoneFails(exe.fails, old(exe.calls), r.error.probe)
      && Fails(exe.fails, old(exe.calls) + r.error.probe)
      && exe.calls == old(exe.calls) + r.error.probe + 1
      && |exe.attached| == |old(exe.attached)| + r.error.probe
      && exe.attached[..|old(exe.attached)|] == old(exe.attached)
      && (forall l :: l in exe.attached[|old(exe.attached)|..] ==> fresh(l) && l.closes == 1)
  {
    if |progs| != |probes| {
      return Err(ProgramCount);
    }
    var links: seq<Link> := [];
    for i := 0 to |probes|
      invariant |links| == i && fresh(links) && LinksFor(links, probes, progs, cookies)
      invariant exe.calls == old(exe.calls) + i && exe.attached == old(exe.attached) + links
      invariant NoneFails(exe.fails, old(exe.calls), i)
    {
      var l := exe.Uprobe(probes[i].name, progs[i], OptionsFor(probes[i], cookies, i));
      if l.None? {
        CloseAll(links);
        assert exe.attached[|old(exe.attached)|..] == links;
        return Err(AttachFailed(i));
      }
      links := links + [l.value];
    }
    var pl := new ProbeLinks(links, [], specMap);
    return Ok(pl);
  }

  // ----- ProbeLinks -----

  /** How often a link is listed. */
  function Listed(links: seq<Link>, l: Link): nat {
    if links == [] then 0
    else Listed(links[..|links| - 1], l) + if links[|links| - 1] == l then 1 else 0
  }

  function CloseErrors(links: seq<Link>): nat {
    if links == [] then 0
    else CloseErrors(links[..|links| - 1]) + if links[|links| - 1].closeFails then 1 else 0
  }

  /** The positions of the links whose Close fails. */
  function FailingLinks(links: seq<Link>): set<nat> {
    set i: nat | i < |links| && links[i].closeFails
  }

  lemma {:induction false} CloseErrorsExact(links: seq<Link>)
    ensures CloseErrors(links) == |FailingLinks(links)|
  {
    if links != [] {
      var n := |links| - 1;
      CloseErrorsExact(links[..n]);
      if links[n].closeFails {
        assert FailingLinks(links) == FailingLinks(links[..n]) + {n};
      } else {
        assert FailingLinks(links) == FailingLinks(links[..n]);
      }
    }
  }

  /** The errors of unloading: the links that fail to close and the IDs whose deletion is an error. */
  ghost predicate UnloadErrors(
    errs: nat, links: seq<Link>, specMap: Option<SpecMap>, ids: seq<u32>, fails: Schedule, calls: nat)
  {
    && errs == |FailingLinks(links)| + (if specMap.Some? then |Missed(specMap.value, ids, fails, calls, |ids|)| else 0)
    && (errs == 0 <==>
          && (forall l :: l in links ==> !l.closeFails)
          && (specMap.Some? ==>
                forall i: nat :: i < |ids| && ids[i] != 0 ==> !Misses(specMap.value, ids, fails, calls, i)))
  }

  lemma CountedErrors(
    errs: nat, links: seq<Link>, specMap: Option<SpecMap>, ids: seq<u32>, fails: Schedule, calls: nat)
    requires errs == CloseErrors(links)
      + if specMap.Some? then DeleteAll(specMap.value, ids, fails, calls).errors else 0
    ensures UnloadErrors(errs, links, specMap, ids, fails, calls)
  {
    CloseErrorsExact(links);
    if l :| l in links && l.closeFails {
      var i :| 0 <= i < |links| && links[i] == l;
      assert i in FailingLinks(links);
    } else {
      assert FailingLinks(links) == {};
    }
    if specMap.Some? {
      DeleteUnderFailures(specMap.value, ids, fails, calls, |ids|);
      assert ids[..|ids|] == ids;
      if i: nat :| i < |ids| && Misses(specMap.value, ids, fails, calls, i) {
        assert i in Missed(specMap.value, ids, fails, calls, |ids|);
      } else {
        assert Missed(specMap.value, ids, fails, calls, |ids|) == {};
      }
    }
  }

  class ProbeLinks {
    var links: seq<Link>
    var specIDs: seq<u32>
    var specMap: BpfMap?

    constructor (links: seq<Link>, specIDs: seq<u32>, specMap: BpfMap?)
      ensures this.links == links && this.specIDs == specIDs && this.specMap == specMap
    {
      this.links, this.specIDs, this.specMap := links, specIDs, specMap;
    }

    /**
     Closes every link and deletes every nonzero ID, carrying on after errors; the result counts the
     errors. A link listed twice is closed twice.
     */
    method Unload() returns (errs: nat)
      modifies links, specMap
      ensures forall l :: l in links ==> l.closes == old(l.closes) + Listed(links, l)
      ensures specMap == null ==> errs == CloseErrors(links) && UnloadErrors(errs, links, None, specIDs, [], 0)
      ensures specMap != null ==>
        var d := DeleteAll(old(specMap.entries), specIDs, specMap.fails, old(specMap.calls));
        && specMap.entries == d.entries && specMap.calls == d.calls && errs == CloseErrors(links) + d.errors
        && UnloadErrors(errs, links, Some(old(specMap.entries)), specIDs, specMap.fails, old(specMap.calls))
    {
      errs := CloseLinks(links);
      if specMap == null {
        CountedErrors(errs, links, None, specIDs, [], 0);
      } else {
        var deleteErrs := DeleteIDs(specMap, specIDs);
        errs := errs + deleteErrs;
        CountedErrors(errs, links, Some(old(specMap.entries)), specIDs, specMap.fails, old(specMap.calls));
      }
    }

    /** Close is Unload. */
    method Close() returns (errs: nat)
      modifies links, specMap
      ensures forall l :: l in links ==> l.closes == old(l.closes) + Listed(links, l)
      ensures specMap == null ==> errs == CloseErrors(links) && UnloadErrors(errs, links, None, specIDs, [], 0)
      ensures specMap != null ==>
        var d := DeleteAll(old(specMap.entries), specIDs, specMap.fails, old(specMap.calls));
        && specMap.entries == d.entries && specMap.calls == d.calls && errs == CloseErrors(links) + d.errors
        && UnloadErrors(errs, links, Some(old(specMap.entries)), specIDs, specMap.fails, old(specMap.calls))
    {
      errs := Unload();
    }
  }

  method CloseLinks(links: seq<Link>) returns (errs: nat)
    modifies links
    ensures forall l :: l in links ==> l.closes == old(l.closes) + Listed(links, l)
    ensures errs == CloseErrors(links) == |FailingLinks(links)|
  {
    CloseErrorsExact(links);
    errs := 0;
    for i := 0 to |links|
      invariant errs == CloseErrors(links[..i])
      invariant forall l :: l in links ==> l.closes == old(l.closes) + Listed(links[..i], l)
    {
      assert links[..i + 1][..i] == links[..i];
      var ok := links[i].Close();
      if !ok {
        errs := errs + 1;
      }
    }
    assert links[..|links|] == links;
  }

  method DeleteIDs(specMap: BpfMap, ids: seq<u32>) returns (errs: nat)
    modifies specMap
    ensures
      var d := DeleteAll(old(specMap.entries), ids, specMap.fails, old(specMap.calls));
      specMap.entries == d.entries && specMap.calls == d.calls && errs == d.errors
  {
    errs := 0;
    for i := 0 to |ids|
      invariant Deletion(specMap.entries, errs, specMap.calls)
        == DeleteAll(old(specMap.entries), ids[..i], specMap.fails, old(specMap.calls))
    {
      assert ids[..i + 1][..i] == ids[..i];
      if ids[i] != 0 {
        var ok := specMap.Delete(ids[i]);
        if !ok {
          errs := errs + 1;
        }
      }
    }
    assert ids[..|ids|] == ids;
  }
}
