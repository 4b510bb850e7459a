/**
 From the source to the value: probes written into a `.note.stapsdt` section as UTF-8 text are parsed,
 decoded, stored and attached, and a BPF program on the attached link gets what the source text means.
 */
module WholeProgram {
  import opened Wrappers
  import opened Machine
  import opened Utf8
  import opened StapsdtNotes
  import opened NoteLaws
  import opened ArgInterpreter
  import opened SpecAllocation
  import opened Attach
  import opened EndToEnd

  // ----- the section -----

  /** A probe as the traced program states it: texts and link-time addresses. */
  datatype SourceProbe = SourceProbe(
    provider: string, name: string, arguments: string, location: u64, base: u64, semaphore: u64)

  /** What a section is made of: probes, and notes of other types. */
  datatype Item = Traced(probe: SourceProbe) | Foreign(note: Note)

  function StapOf(p: SourceProbe): StapProbe {
    StapProbe(p.location, p.base, p.semaphore, EncodeText(p.provider), EncodeText(p.name), EncodeText(p.arguments))
  }

  /** Texts are terminated by NUL, so they contain none, and the sizes fit `uint32` with padding. */
  predicate Writable(item: Item) {
    match item
    case Traced(p) =>
      '\0' !in p.provider && '\0' !in p.name && '\0' !in p.arguments && Fits(StapNote(StapOf(p)))
    case Foreign(n) => n.noteType != 3 && Fits(n)
  }

  function EntryOf(item: Item): Entry {
    match item
    case Traced(p) => Stap(StapOf(p))
    case Foreign(n) => Other(n)
  }

  function EntriesOf(items: seq<Item>): (entries: seq<Entry>)
    ensures |entries| == |items| && forall i :: 0 <= i < |items| ==> entries[i] == EntryOf(items[i])
  {
    seq(|items|, i requires 0 <= i < |items| => EntryOf(items[i]))
  }

  lemma WritableIsEncodable(item: Item)
    requires Writable(item)
    ensures Encodable(EntryOf(item))
  {
    if item.Traced? {
      NoNulByte(item.probe.provider);
      NoNulByte(item.probe.name);
      NoNulByte(item.probe.arguments);
    }
  }

  lemma AllEncodable(items: seq<Item>)
    requires forall i :: 0 <= i < |items| ==> Writable(items[i])
    ensures forall i :: 0 <= i < |items| ==> Encodable(EntriesOf(items)[i])
    ensures forall i :: 0 <= i < |items| ==> Fits(NotesOf(EntriesOf(items))[i])
  {
    forall i | 0 <= i < |items| ensures Encodable(EntriesOf(items)[i]) {
      WritableIsEncodable(items[i]);
    }
  }

  /** The bytes of the section. */
  function Section(items: seq<Item>): seq<byte>
    requires forall i :: 0 <= i < |items| ==> Writable(items[i])
  {
    AllEncodable(items);
    EncodeNotes(NotesOf(EntriesOf(items)))
  }

  /** The probes of a section, in order. */
  function Sources(items: seq<Item>): seq<SourceProbe> {
    if items == [] then []
    else (if items[0].Traced? then [items[0].probe] else []) + Sources(items[1..])
  }

  // ----- reading it back -----

  /** Go's view of a probe's bytes as text. */
  function DecodeProbe(p: Probe<seq<byte>>): TextProbe {
    Probe(DecodeText(p.provider), DecodeText(p.name), p.location, p.base, p.semaphoreOffset, DecodeText(p.arguments))
  }

  function DecodeProbes(ps: seq<Probe<seq<byte>>>): (r: seq<TextProbe>)
    ensures |r| == |ps| && forall i :: 0 <= i < |ps| ==> r[i] == DecodeProbe(ps[i])
  {
    seq(|ps|, i requires 0 <= i < |ps| => DecodeProbe(ps[i]))
  }

  /** A source probe with its addresses turned into file offsets. */
  function Resolved(env: Env, p: SourceProbe): TextProbe {
    Probe(p.provider, p.name,
          LocationOffset(env, Relocated(env, p.base, p.location)),
          p.base,
          SemaphoreOffset(env, AdjustedSemaphore(env, p.base, p.semaphore)),
          p.arguments)
  }

  function ResolvedAll(env: Env, ps: seq<SourceProbe>): (r: seq<TextProbe>)
    ensures |r| == |ps| && forall i :: 0 <= i < |ps| ==> r[i] == Resolved(env, ps[i])
  {
    seq(|ps|, i requires 0 <= i < |ps| => Resolved(env, ps[i]))
  }

  lemma DecodeTranslated(env: Env, p: SourceProbe)
    ensures DecodeProbe(Translated(env, StapOf(p))) == Resolved(env, p)
  {
    TextRoundTrip(p.provider);
    TextRoundTrip(p.name);
    TextRoundTrip(p.arguments);
  }

  lemma {:induction false} DecodeTranslatedAll(env: Env, items: seq<Item>)
    ensures DecodeProbes(TranslatedAll(env, EntriesOf(items))) == ResolvedAll(env, Sources(items))
  {
    if items != [] {
      DecodeTranslatedAll(env, items[1..]);
      assert EntriesOf(items)[1..] == EntriesOf(items[1..]);
      if items[0].Traced? {
        DecodeTranslated(env, items[0].probe);
      }
    }
  }

  /** Parsing the section and decoding its texts gives back the source's probes, in order. */
  lemma SectionReadBack(env: Env, items: seq<Item>)
    requires forall i :: 0 <= i < |items| ==> Writable(items[i])
    ensures DecodeProbes(ParseNotes(env, Section(items), 0)) == ResolvedAll(env, Sources(items))
  {
    AllEncodable(items);
    SectionRoundTrip(env, EntriesOf(items));
    DecodeTranslatedAll(env, items);
  }

  // ----- the attached link -----

  /** `links` are the open links of all probes, with the cookies merged for them. */
  ghost predicate Attached(
    t: Target, probes: seq<TextProbe>, progs: seq<nat>, start: u32, cookies: seq<u64>, links: seq<Link>)
    reads links
  {
    && |links| == |probes|
    && LinksFor(links, probes, progs, Some(Merged(IDs(ImagesOf(t, probes), start), cookies)))
  }

  /** A machine that runs into an attached link fires the link's probe. */
  lemma AttachedFires(
    t: Target, probes: seq<TextProbe>, progs: seq<nat>, start: u32, cookies: seq<u64>,
    links: seq<Link>, i: nat, machine: Context)
    requires Attached(t, probes, progs, start, cookies, links)
    requires i < |probes| && machine.Valid() && machine.arch == t.arch && machine.endian == t.endian
    ensures Fires(t, probes, start, cookies, i, machine.(cookie := links[i].opts.cookie))
  {
    var merged := Merged(IDs(ImagesOf(t, probes), start), cookies);
    assert LinkFor(links[i], probes[i], progs[i], Some(merged), i) && i < |merged|;
  }

  /** Probe `i` of a list has a specification that its ID, as a C int, leads to. */
  ghost predicate Reachable(t: Target, probes: seq<TextProbe>, start: u32, i: nat)
    requires i < |probes|
  {
    var images := ImagesOf(t, probes);
    HasSpecification(t, probes[i].arguments) && IDAt(images, start, i) < 0x8000_0000 && NotReused(images, i)
  }

  /** The link runs the program at the file offsets of a source probe. */
  ghost predicate SitsAt(env: Env, p: SourceProbe, prog: nat, link: Link) {
    && link.symbol == p.name && link.prog == prog
    && AddressesIn(env, p.base, p.location, p.semaphore, link.opts.address, link.opts.refCtrOffset)
  }

  /**
   From the source to the value: whatever else the section holds and wherever the file is loaded, the
   link of the i-th source probe sits at that probe's place in the file, and the BPF program it runs
   gets the meaning of the probe's own argument text.
   */
  lemma SourceToValue(
    t: Target, env: Env, items: seq<Item>, entries: SpecMap, start: u32, cookies: seq<u64>,
    progs: seq<nat>, links: seq<Link>, i: nat, machine: Context, n: u64)
    requires forall i :: 0 <= i < |items| ==> Writable(items[i])
    requires i < |Sources(items)| && machine.Valid() && machine.arch == t.arch && machine.endian == t.endian
    ensures Attached(t, DecodeProbes(ParseNotes(env, Section(items), 0)), progs, start, cookies, links) ==>
      && |links| == |Sources(items)| == |progs|
      && SitsAt(env, Sources(items)[i], progs[i], links[i])
      && var probes, ctx := ResolvedAll(env, Sources(items)), machine.(cookie := links[i].opts.cookie);
         Reachable(t, probes, start, i) ==>
           MeansAt(Sources(items)[i].arguments, ctx, n, Fetch(Stored(entries, ImagesOf(t, probes), start), ctx, n))
  {
    SectionReadBack(env, items);
    var probes := ResolvedAll(env, Sources(items));
    if Attached(t, probes, progs, start, cookies, links) {
      AttachedFires(t, probes, progs, start, cookies, links, i, machine);
      var p := Sources(items)[i];
      AddressesFound(env, p.base, p.location, p.semaphore);
      assert LinkFor(links[i], probes[i], progs[i], Some(Merged(IDs(ImagesOf(t, probes), start), cookies)), i);
      EndToEndMeaning(t, entries, probes, start, cookies, i, machine.(cookie := links[i].opts.cookie), n);
    }
  }

  /**
   The whole program in one run: parse the file, populate the map, merge the cookies, attach, and fetch
   argument `n` when the i-th probe fires.
   */
  method TraceSource(
    t: Target, sections: seq<ElfSection>, segs: seq<ElfProg>, ghost items: seq<Item>,
    exe: Executable, specMap: BpfMap, progs: seq<nat>, startID: u32, userCookies: seq<u64>,
    i: nat, machine: Context, n: u64)
    returns (link: Link, err: int, res: s64)
    requires forall i :: 0 <= i < |items| ==> Writable(items[i])
    requires LastData(sections) == Some(Section(items))
    requires i < |Sources(items)| == |progs|
    requires machine.Valid() && machine.arch == t.arch && machine.endian == t.endian
    requires NoneFails(exe.fails, exe.calls, |Sources(items)|)
    requires var images := ImagesOf(t, ResolvedAll(Env(LastBase(sections), segs), Sources(items)));
      NoneFails(specMap.fails, specMap.calls, CountSpecs(images))
    modifies exe, specMap
    ensures err != 0 ==> res == 0
    ensures SitsAt(Env(LastBase(sections), segs), Sources(items)[i], progs[i], link)
    ensures Reachable(t, ResolvedAll(Env(LastBase(sections), segs), Sources(items)), startID, i) ==>
      MeansAt(Sources(items)[i].arguments, machine.(cookie := link.opts.cookie), n,
              if err == 0 then Ok(res) else Err(err))
  {
    ghost var env := Env(LastBase(sections), segs);
    SectionReadBack(env, items);
    var found: Result<seq<Probe<seq<byte>>>, int> := ParseProbes(Ok(sections), segs);
    var probes := DecodeProbes(found.value);
    assert probes == ResolvedAll(env, Sources(items));
    var ids, pl := PopulateAndAttach(t, exe, specMap, probes, progs, startID, userCookies);
    link := pl.links[i];
    SourceToValue(t, env, items, old(specMap.entries), startID, userCookies, progs, pl.links, i, machine, n);
    err, res := BpfUsdtArg(specMap.entries, machine.(cookie := link.opts.cookie), n);
  }
}
