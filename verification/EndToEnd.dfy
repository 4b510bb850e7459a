/**
 The whole path of an argument: from a probe's argument string through the specification map and the
 attach cookie to the value a BPF program gets, and the life cycle of the map and the links.
 */
module EndToEnd {
  import opened Wrappers
  import opened Machine
  import opened Text
  import opened Specs
  import opened ArgSplitter
  import opened Patterns
  import opened ArgSyntax
  import opened ArgCompiler
  import opened ArgLists
  import opened ArgInterpreter
  import opened ArgMeaning
  import opened StapsdtNotes
  import opened SpecAllocation
  import opened Attach

  // ----- from text to specification -----

  /** Fetching from a map that holds a specification under the probe's ID. */
  lemma FetchStored(specs: SpecMap, ctx: Context, spec: Spec, n: u64)
    requires ctx.Valid() && 0 <= spec.argCnt <= MAX_ARG_CNT
    requires SpecID(ctx.cookie) in specs && specs[SpecID(ctx.cookie)] == SpecToBytes(ctx.endian, spec)
    ensures Fetch(specs, ctx, n) == if n < spec.argCnt then Evaluate(ctx, spec.args[n]) else Err(-1)
  {
    SpecRoundTrip(ctx.endian, spec);
    FetchWithin(spec, ctx, n);
  }

  lemma FetchWithin(spec: Spec, ctx: Context, n: u64)
    requires ctx.Valid() && 0 <= spec.argCnt <= MAX_ARG_CNT
    ensures FetchFrom(spec, ctx, n) == if n < spec.argCnt then Evaluate(ctx, spec.args[n]) else Err(-1)
  {
  }

  /** What the n-th argument of a probe's argument string means when the probe fires. */
  ghost predicate MeansAt(text: string, ctx: Context, n: u64, r: Result<s64, int>)
    requires ctx.Valid()
  {
    if n >= |SourceArgs(text)| then r == Err(-1)
    else exists arg ::
        && Spells(SourceArgs(text)[n], arg)
        && NameExists(ctx.arch, arg.loc)
        && r == Reported(Denote(ctx, arg))
  }

  lemma EvaluateMeans(ctx: Context, text: string, spec: ArgSpec)
    requires ctx.Valid() && ParseArg(ctx.arch, text) == Ok(spec)
    ensures ReadArg(text).Some? && Spells(text, ReadArg(text).value)
    ensures NameExists(ctx.arch, ReadArg(text).value.loc)
    ensures Evaluate(ctx, spec) == Reported(Denote(ctx, ReadArg(text).value))
  {
    ReadArgSound(text);
    MeaningPreserved(ctx, ReadArg(text).value);
  }

  lemma FetchMeans(t: Target, p: TextProbe, specs: SpecMap, ctx: Context, n: u64)
    requires ctx.Valid() && ctx.arch == t.arch && ctx.endian == t.endian
    requires ImageOf(t, p).Some?
    requires SpecID(ctx.cookie) in specs && specs[SpecID(ctx.cookie)] == ImageOf(t, p).value
    ensures MeansAt(p.arguments, ctx, n, Fetch(specs, ctx, n))
  {
    var text := p.arguments;
    var spec := ParseArguments(t.arch, text).value;
    ListAcceptedExactly(t.arch, text);
    FetchStored(specs, ctx, spec, n);
    if n < |SourceArgs(text)| {
      EvaluateMeans(ctx, SourceArgs(text)[n], spec.args[n]);
    }
  }

  // ----- the main theorem -----

  /** A probe of the list fires: same build, and the cookie that was merged for it. */
  ghost predicate Fires(t: Target, probes: seq<TextProbe>, start: u32, cookies: seq<u64>, i: nat, ctx: Context)
    requires i < |probes|
  {
    && ctx.Valid() && ctx.arch == t.arch && ctx.endian == t.endian
    && ctx.cookie == Merged(IDs(ImagesOf(t, probes), start), cookies)[i]
  }

  /**
   End-to-end meaning preservation, for every list of probes, start ID, map, register file and memory.
   An ID from 2^31 on is negative as a C int, and the probe gets nothing. Below that, the probe gets
   the meaning of the source argument of the last probe stored under its ID, which is itself unless
   2^32 more specifications follow. A probe without specification looks key 0 up like any other.
   */
  lemma EndToEndMeaning(
    t: Target, entries: SpecMap, probes: seq<TextProbe>, start: u32, cookies: seq<u64>,
    i: nat, ctx: Context, n: u64)
    requires i < |probes| && Fires(t, probes, start, cookies, i, ctx)
    ensures var images := ImagesOf(t, probes);
      var specs, id := Stored(entries, images, start), IDAt(images, start, i);
      if id >= 0x8000_0000 then Fetch(specs, ctx, n) == Err(-1)
      else
        match Holder(images, start, id)
        case Some(j) => MeansAt(probes[j].arguments, ctx, n, Fetch(specs, ctx, n))
        case None =>
          && !HasSpecification(t, probes[i].arguments)
          && Fetch(specs, ctx, n) ==
             if 0 in entries then FetchFrom(SpecFromBytes(ctx.endian, entries[0]), ctx, n) else Err(-1)
    ensures var images := ImagesOf(t, probes);
      HasSpecification(t, probes[i].arguments) && IDAt(images, start, i) < 0x8000_0000 && NotReused(images, i) ==>
        MeansAt(probes[i].arguments, ctx, n, Fetch(Stored(entries, images, start), ctx, n))
  {
    var images := ImagesOf(t, probes);
    var specs, id := Stored(entries, images, start), IDAt(images, start, i);
    ImageExactly(t, probes, i);
    CookieHalves(IDs(images, start), cookies, i);
    StoredLookup(entries, images, start, id);
    if images[i].Some? {
      HolderOfID(images, start, i);
    }
    if id < 0x8000_0000 && Holder(images, start, id).Some? {
      var j := Holder(images, start, id).value;
      ImagesAt(t, probes, j);
      FetchMeans(t, probes[j], specs, ctx, n);
    }
  }

  // ----- a probe without specification -----

  /**
   "0 means no specification" for a probe that has none: every argument is refused if and only if the
   map has no entry 0, or one without a live argument. Entry 0 is there if and only if it was before,
   or the start ID is 0 or the IDs wrap through it.
   */
  lemma NoSpecificationExactly(
    t: Target, entries: SpecMap, probes: seq<TextProbe>, start: u32, cookies: seq<u64>, i: nat, ctx: Context)
    requires i < |probes| && Fires(t, probes, start, cookies, i, ctx) && !HasSpecification(t, probes[i].arguments)
    ensures var specs := Stored(entries, ImagesOf(t, probes), start);
      && (0 in specs <==> 0 in entries || !ZeroUnused(ImagesOf(t, probes), start))
      && ((forall n: u64 :: Fetch(specs, ctx, n) == Err(-1))
          <==> 0 !in specs || !HasLive(ctx.arch, SpecFromBytes(ctx.endian, specs[0])))
  {
    var images := ImagesOf(t, probes);
    var specs := Stored(entries, images, start);
    BareCookie(t, probes, start, cookies, i, ctx);
    StoredLookup(entries, images, start, 0);
    ZeroHolder(images, start);
    if 0 in specs {
      var spec := SpecFromBytes(ctx.endian, specs[0]);
      assert forall n: u64 :: Fetch(specs, ctx, n) == FetchFrom(spec, ctx, n);
      AllRefused(spec, ctx);
    }
  }

  /**
   When entry 0 is the image of some probe, a probe without specification gets that probe's arguments:
   it gets nothing if and only if there are none.
   */
  lemma ZeroEntryRead(
    t: Target, entries: SpecMap, probes: seq<TextProbe>, start: u32, cookies: seq<u64>,
    i: nat, ctx: Context, q: TextProbe)
    requires i < |probes| && Fires(t, probes, start, cookies, i, ctx) && !HasSpecification(t, probes[i].arguments)
    requires var specs := Stored(entries, ImagesOf(t, probes), start);
      ImageOf(t, q).Some? && 0 in specs && specs[0] == ImageOf(t, q).value
    ensures var specs := Stored(entries, ImagesOf(t, probes), start);
      && (forall n: u64 :: MeansAt(q.arguments, ctx, n, Fetch(specs, ctx, n)))
      && ((forall n: u64 :: Fetch(specs, ctx, n) == Err(-1)) <==> SourceArgs(q.arguments) == [])
  {
    var specs := Stored(entries, ImagesOf(t, probes), start);
    BareCookie(t, probes, start, cookies, i, ctx);
    forall n: u64 ensures MeansAt(q.arguments, ctx, n, Fetch(specs, ctx, n)) {
      FetchMeans(t, q, specs, ctx, n);
    }
    if SourceArgs(q.arguments) != [] {
      NotRefused(q.arguments, ctx, 0, Fetch(specs, ctx, 0));
    }
  }

  /** The cookie of a probe without specification carries ID 0. */
  lemma BareCookie(t: Target, probes: seq<TextProbe>, start: u32, cookies: seq<u64>, i: nat, ctx: Context)
    requires i < |probes| && Fires(t, probes, start, cookies, i, ctx) && !HasSpecification(t, probes[i].arguments)
    ensures SpecID(ctx.cookie) == 0
  {
    ImageExactly(t, probes, i);
    CookieHalves(IDs(ImagesOf(t, probes), start), cookies, i);
  }

  lemma NotRefused(text: string, ctx: Context, n: u64, r: Result<s64, int>)
    requires ctx.Valid() && MeansAt(text, ctx, n, r)
    ensures r == Err(-1) <==> n >= |SourceArgs(text)|
  {
  }

  /** The meaning of a source text is unique, so `MeansAt` determines the result. */
  lemma MeaningUnique(text: string, ctx: Context, n: u64, r: Result<s64, int>, r': Result<s64, int>)
    requires ctx.Valid() && MeansAt(text, ctx, n, r) && MeansAt(text, ctx, n, r')
    ensures r == r'
  {
    if n < |SourceArgs(text)| {
      var source := SourceArgs(text)[n];
      var arg :| Spells(source, arg) && NameExists(ctx.arch, arg.loc) && r == Reported(Denote(ctx, arg));
      var arg' :| Spells(source, arg') && NameExists(ctx.arch, arg'.loc) && r' == Reported(Denote(ctx, arg'));
      ReadArgComplete(source, arg);
      ReadArgComplete(source, arg');
    }
  }

  // ----- start ID 0 -----

  /** The text of one constant argument, such as 8@$5. */
  function ConstantText(v: int): string {
    Print(Const, Arg(8, false, Immediate(v)))
  }

  lemma ConstantArguments(t: Target, v: int)
    requires IsInt64(v)
    ensures ConstantText(v) != [] && SourceArgs(ConstantText(v)) == [ConstantText(v)]
    ensures ParseArguments(t.arch, ConstantText(v)).Ok?
  {
    var arg, text, gaps := Arg(8, false, Immediate(v)), ConstantText(v), ["", ""];
    assert PrintAll([Const], [arg]) == [text];
    PrintedIsToken(Const, arg);
    assert Interleave(gaps, [text]) == text by {
      assert Interleave(gaps[1..], []) == "";
    }
    TrimmedLayout(gaps, [text]);
    PrintParseList(t.arch, [Const], [arg], gaps);
    CollectOk(CompileAll(t.arch, [arg]), [CompileArg(t.arch, arg).value]);
  }

  lemma ConstantImage(t: Target, p: TextProbe, v: int)
    requires IsInt64(v) && p.arguments == ConstantText(v)
    ensures ImageOf(t, p).Some?
  {
    ConstantArguments(t, v);
  }

  lemma FirstIDIsZero(images: Images)
    requires 0 < |images| <= TWO_32 && images[0].Some?
    ensures IDAt(images, 0, 0) == 0 && NotReused(images, 0)
  {
    assert images[..0] == [];
  }

  lemma ConstantDenotes(ctx: Context, v: int)
    requires ctx.Valid() && IsInt64(v)
    ensures Denote(ctx, Arg(8, false, Immediate(v))) == Some(v)
  {
    Pow2Of64();
  }

  lemma OneArgumentMeans(ctx: Context, text: string, arg: Arg, r: Result<s64, int>)
    requires ctx.Valid() && SourceArgs(text) == [text]
    ensures ReadArg(text) == Some(arg) && MeansAt(text, ctx, 0, r) ==>
      NameExists(ctx.arch, arg.loc) && r == Reported(Denote(ctx, arg))
  {
    if ReadArg(text) == Some(arg) && MeansAt(text, ctx, 0, r) {
      var arg' :| Spells(text, arg') && NameExists(ctx.arch, arg'.loc) && r == Reported(Denote(ctx, arg'));
      ReadArgComplete(text, arg');
    }
  }

  lemma ConstantMeans(ctx: Context, v: int, r: Result<s64, int>)
    requires ctx.Valid() && IsInt64(v)
    ensures MeansAt(ConstantText(v), ctx, 0, r) ==> r == Ok(v)
  {
    var arg := Arg(8, false, Immediate(v));
    ConstantArguments(Target(ctx.arch, ctx.endian), v);
    PrintRead(Const, arg);
    OneArgumentMeans(ctx, ConstantText(v), arg, r);
    ConstantDenotes(ctx, v);
  }

  /** A probe without specification gets the arguments of the probe whose ID happens to be 0. */
  lemma ZeroIDRead(
    t: Target, entries: SpecMap, probes: seq<TextProbe>, start: u32, cookies: seq<u64>,
    i: nat, j: nat, ctx: Context, n: u64)
    requires i < |probes| && Fires(t, probes, start, cookies, i, ctx) && !HasSpecification(t, probes[i].arguments)
    requires j < |probes| && HasSpecification(t, probes[j].arguments) && IDAt(ImagesOf(t, probes), start, j) == 0
    requires NotReused(ImagesOf(t, probes), j)
    ensures MeansAt(probes[j].arguments, ctx, n, Fetch(Stored(entries, ImagesOf(t, probes), start), ctx, n))
  {
    ImageExactly(t, probes, j);
    StoredAtID(entries, ImagesOf(t, probes), start, j);
    ZeroEntryRead(t, entries, probes, start, cookies, i, ctx, probes[j]);
  }

  /** So with start ID 0, next to a probe with the argument 8@$5, argument 0 of a probe without any is 5. */
  lemma StartZeroWitness(
    t: Target, entries: SpecMap, probes: seq<TextProbe>, v: int, cookies: seq<u64>, ctx: Context)
    requires IsInt64(v)
    requires |probes| == 2 && probes[0].arguments == ConstantText(v) && probes[1].arguments == []
    requires Fires(t, probes, 0, cookies, 1, ctx)
    ensures Fetch(Stored(entries, ImagesOf(t, probes), 0), ctx, 0) == Ok(v)
  {
    ConstantImage(t, probes[0], v);
    ImageExactly(t, probes, 0);
    FirstIDIsZero(ImagesOf(t, probes));
    ZeroIDRead(t, entries, probes, 0, cookies, 1, 0, ctx, 0);
    ConstantMeans(ctx, v, Fetch(Stored(entries, ImagesOf(t, probes), 0), ctx, 0));
  }

  /** With start ID 0, unloading with the IDs set leaves the first specification in the map. */
  lemma StartZeroLeftBehind(t: Target, p: TextProbe, entries: SpecMap, fails: Schedule, calls: nat)
    requires ImageOf(t, p).Some? && 0 !in entries && NoneFails(fails, calls, 1)
    ensures var images := ImagesOf(t, [p]);
      DeleteAll(Stored(entries, images, 0), IDs(images, 0), fails, calls).entries == entries[0 := ImageOf(t, p).value]
  {
    var images := ImagesOf(t, [p]);
    ImagesAt(t, [p], 0);
    HolderOfID(images, 0, 0);
    assert CountSpecs(images) == 1 by { assert images[..0] == []; }
    DeleteLeavesZero(entries, images, 0, fails, calls);
  }

  // ----- the library in use -----

  /**
   The documented sequence of calls up to a fired probe: populate the map, merge the cookies, and
   fetch argument `n` in the probe's BPF program.
   */
  method TraceArgument(
    t: Target, specMap: BpfMap, probes: seq<TextProbe>, startID: u32, userCookies: seq<u64>,
    i: nat, machine: Context, n: u64)
    returns (cookie: u64, err: int, res: s64)
    requires i < |probes| && machine.Valid() && machine.arch == t.arch && machine.endian == t.endian
    requires 1 <= startID && startID + CountSpecs(ImagesOf(t, probes)) <= 0x8000_0000
    requires NoneFails(specMap.fails, specMap.calls, CountSpecs(ImagesOf(t, probes)))
    modifies specMap
    ensures err != 0 ==> res == 0
    ensures HasSpecification(t, probes[i].arguments) ==>
      MeansAt(probes[i].arguments, machine.(cookie := cookie), n, if err == 0 then Ok(res) else Err(err))
    ensures !HasSpecification(t, probes[i].arguments) ==>
      (if err == 0 then Ok(res) else Err(err)) ==
        if 0 in old(specMap.entries)
        then FetchFrom(SpecFromBytes(t.endian, old(specMap.entries)[0]), machine.(cookie := cookie), n)
        else Err(-1)
    ensures UserCookie(cookie) == if i < |userCookies| then userCookies[i] % TWO_32 else 0
  {
    var ids := PopulateSpecMap(t, specMap, probes, startID);
    var cookies := MergeCookies(ids.value, userCookies);
    cookie := cookies[i];
    assert cookie == cookies[..][i];
    CookieHalves(ids.value, userCookies, i);
    EndToEndMeaning(t, old(specMap.entries), probes, startID, userCookies, i, machine.(cookie := cookie), n);
    ImageExactly(t, probes, i);
    ZeroHolder(ImagesOf(t, probes), startID);
    if HasSpecification(t, probes[i].arguments) {
      IDWithoutWrap(ImagesOf(t, probes), startID, i);
    }
    err, res := BpfUsdtArg(specMap.entries, machine.(cookie := cookie), n);
  }

  /** Populate the map, merge the cookies and attach, when no kernel call fails. */
  method PopulateAndAttach(
    t: Target, exe: Executable, specMap: BpfMap, probes: seq<TextProbe>, progs: seq<nat>,
    startID: u32, userCookies: seq<u64>)
    returns (ids: seq<u32>, pl: ProbeLinks)
    requires |progs| == |probes|
    requires NoneFails(specMap.fails, specMap.calls, CountSpecs(ImagesOf(t, probes)))
    requires NoneFails(exe.fails, exe.calls, |probes|)
    modifies exe, specMap
    ensures fresh(pl) && fresh(pl.links) && pl.specMap == specMap && pl.specIDs == []
    ensures |pl.links| == |probes|
    ensures LinksFor(pl.links, probes, progs, Some(Merged(IDs(ImagesOf(t, probes), startID), userCookies)))
    ensures ids == IDs(ImagesOf(t, probes), startID)
    ensures specMap.entries == Stored(old(specMap.entries), ImagesOf(t, probes), startID)
    ensures specMap.calls == old(specMap.calls) + CountSpecs(ImagesOf(t, probes))
  {
    var r := PopulateSpecMap(t, specMap, probes, startID);
    ids := r.value;
    var cookies := MergeCookies(ids, userCookies);
    var attached := AttachUprobes(exe, specMap, probes, progs, Some(cookies[..]));
    pl := attached.value;
  }

  /**
   Unloading freshly attached links. They do not carry the specification IDs. A caller who sets them
   gets the original map back if and only if nothing was stored under key 0; otherwise Unload restores
   the map just when no probe had a specification. Either way every link is closed exactly once, even
   when some closes fail.
   */
  method UnloadAttached(
    pl: ProbeLinks, specMap: BpfMap, images: Images, startID: u32, setIDs: bool, ghost before: SpecMap)
    returns (errs: nat)
    requires pl.specMap == specMap && pl.specIDs == []
    requires forall l :: l in pl.links ==> l.closes == 0
    requires forall i, j :: 0 <= i < j < |pl.links| ==> pl.links[i] != pl.links[j]
    requires Vacant(before, images, startID)
    requires specMap.entries == Stored(before, images, startID)
    requires NoneFails(specMap.fails, specMap.calls, |images|)
    modifies pl, pl.links, specMap
    ensures pl.links == old(pl.links) && forall l :: l in pl.links ==> l.closes == 1
    ensures errs >= CloseErrors(pl.links)
    ensures errs == CloseErrors(pl.links) <==>
      !setIDs || CountSpecs(images) <= TWO_32 + if startID == 0 then 1 else 0
    ensures setIDs ==> (specMap.entries == before <==> CountSpecs(images) == 0 || InRange(images, startID))
    ensures !setIDs ==> (specMap.entries == before <==> CountSpecs(images) == 0)
  {
    if setIDs {
      pl.specIDs := IDs(images, startID);
      DeleteRestores(before, images, startID, specMap.fails, specMap.calls);
      DeleteErrors(before, images, startID, specMap.fails, specMap.calls);
    } else {
      StoredUnchanged(before, images, startID);
    }
    OnceEach(pl.links);
    errs := pl.Unload();
  }

  lemma {:induction false} OnceEach(links: seq<Link>)
    requires forall i, j :: 0 <= i < j < |links| ==> links[i] != links[j]
    ensures forall l :: l in links ==> Listed(links, l) == 1
    ensures forall l :: l !in links ==> Listed(links, l) == 0
  {
    if links != [] {
      OnceEach(links[..|links| - 1]);
      assert links == links[..|links| - 1] + [links[|links| - 1]];
    }
  }
}
