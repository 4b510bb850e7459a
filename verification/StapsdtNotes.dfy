/**
 Reading USDT probes from the `.note.stapsdt` section: a byte-offset loop over ELF notes, with prelink
 adjustment and translation of virtual addresses to file offsets.
 */
module StapsdtNotes {
  import opened Wrappers
  import opened Machine

  datatype ElfSection = ElfSection(name: string, addr: u64, data: Option<seq<byte>>)

  /** A PT_LOAD segment. */
  datatype ElfProg = ElfProg(vaddr: u64, memsz: u64, off: u64)

  /** A probe; its texts are bytes as found in the note, or decoded characters. */
  datatype Probe<S> = Probe(provider: S, name: S, location: u64, base: u64, semaphoreOffset: u64, arguments: S)

  /** What the notes are resolved against: the address of `.stapsdt.base` (or 0) and the segments. */
  datatype Env = Env(baseAddr: u64, segs: seq<ElfProg>)

  // ----- segments -----

  /** The containment test of the parser, with `uint64` wrap-around of the end address. */
  predicate Contains(seg: ElfProg, addr: u64) {
    addr >= seg.vaddr && addr < Add64(seg.vaddr, seg.memsz)
  }

  function FindSegment(segs: seq<ElfProg>, addr: u64): (r: Option<ElfProg>)
    ensures r.Some? ==> r.value in segs && Contains(r.value, addr)
    ensures r.None? ==> forall seg :: seg in segs ==> !Contains(seg, addr)
  {
    if segs == [] then None
    else if Contains(segs[0], addr) then Some(segs[0])
    else FindSegment(segs[1..], addr)
  }

  /** The first segment that contains the address. */
  method FindLoadSegment(segs: seq<ElfProg>, addr: u64) returns (r: Option<ElfProg>)
    ensures r == FindSegment(segs, addr)
    ensures r.Some? ==> exists i :: 0 <= i < |segs| && segs[i] == r.value && FirstAt(segs, addr, i)
    ensures r.None? ==> forall i :: 0 <= i < |segs| ==> !Contains(segs[i], addr)
  {
    for i := 0 to |segs|
      invariant FindSegment(segs, addr) == FindSegment(segs[i..], addr)
      invariant forall j :: 0 <= j < i ==> !Contains(segs[j], addr)
    {
      if Contains(segs[i], addr) {
        assert FirstAt(segs, addr, i);
        return Some(segs[i]);
      }
    }
    return None;
  }

  predicate FirstAt(segs: seq<ElfProg>, addr: u64, i: nat)
    requires i < |segs|
  {
    Contains(segs[i], addr) && forall j :: 0 <= j < i ==> !Contains(segs[j], addr)
  }

  // ----- one note -----

  /** Rounding up to a multiple of four in `uint32`: `(x + 3) &^ 3`. */
  function Align4(x: u32): u32 {
    var y := (x + 3) % TWO_32;
    y - y % 4
  }

  function U32At(data: seq<byte>, off: nat): u32
    requires off + 4 <= |data|
  {
    DecodeBound(Little, data[off..off + 4]);
    Pow2Of32();
    DecodeLittle(data[off..off + 4])
  }

  function U64At(data: seq<byte>, off: nat): u64
    requires off + 8 <= |data|
  {
    DecodeBound(Little, data[off..off + 8]);
    Pow2Of64();
    DecodeLittle(data[off..off + 8])
  }

  /** What the loop does with the note at an offset: end, skip it, or read its descriptor. */
  datatype Step = Stop | Skip(next: nat) | Read(desc: seq<byte>, next: nat)

  function NoteAt(data: seq<byte>, off: nat): (s: Step)
    ensures !s.Stop? ==> off + 12 <= s.next && off + 12 <= |data|
    ensures s.Read? ==> |s.desc| >= 24
  {
    if off + 12 > |data| then Stop
    else
      var namesz, descsz, noteType := U32At(data, off), U32At(data, off + 4), U32At(data, off + 8);
      var nameEnd := off + 12 + Align4(namesz);
      var next := nameEnd + Align4(descsz);
      if noteType != 3 then Skip(next)
      else if nameEnd + descsz > |data| then Stop
      else if descsz < 24 then Skip(next)
      else Read(data[nameEnd..nameEnd + descsz], next)
  }

  // ----- one descriptor -----

  /** Position of the first NUL, or the length. */
  function NulAt(s: seq<byte>): (n: nat)
    ensures n <= |s| && (n < |s| ==> s[n] == 0) && forall i :: 0 <= i < n ==> s[i] != 0
  {
    if s == [] || s[0] == 0 then 0 else 1 + NulAt(s[1..])
  }

  /** `strings.Split(s, "\x00")`. */
  function SplitNul(s: seq<byte>): (parts: seq<seq<byte>>)
    ensures |parts| >= 1
    decreases |s|
  {
    var n := NulAt(s);
    if n == |s| then [s] else [s[..n]] + SplitNul(s[n + 1..])
  }

  /** The prelink adjustment, modulo 2^64. */
  function Relocated(env: Env, noteBase: u64, addr: u64): u64 {
    if env.baseAddr != 0 && noteBase != 0 then Add64(addr, Sub64(env.baseAddr, noteBase)) else addr
  }

  function FileOffset(seg: ElfProg, addr: u64): u64 {
    Add64(Sub64(addr, seg.vaddr), seg.off)
  }

  /** A location outside every segment stays a virtual address. */
  function LocationOffset(env: Env, addr: u64): u64 {
    match FindSegment(env.segs, addr)
    case Some(seg) => FileOffset(seg, addr)
    case None => addr
  }

  /** A semaphore outside every segment, or a missing one, has offset 0. */
  function SemaphoreOffset(env: Env, addr: u64): u64 {
    if addr == 0 then 0
    else match FindSegment(env.segs, addr)
      case Some(seg) => FileOffset(seg, addr)
      case None => 0
  }

  function AdjustedSemaphore(env: Env, noteBase: u64, semaphore: u64): u64 {
    if semaphore == 0 then 0 else Relocated(env, noteBase, semaphore)
  }

  /** The probe of a descriptor, if its strings are complete. */
  function ProbeOf(env: Env, desc: seq<byte>): Option<Probe<seq<byte>>>
    requires |desc| >= 24
  {
    var location, noteBase, semaphore := U64At(desc, 0), U64At(desc, 8), U64At(desc, 16);
    var parts := SplitNul(desc[24..]);
    if |parts| < 3 then None
    else Some(Probe(
      parts[0], parts[1],
      LocationOffset(env, Relocated(env, noteBase, location)),
      noteBase,
      SemaphoreOffset(env, AdjustedSemaphore(env, noteBase, semaphore)),
      parts[2]))
  }

  function Found(p: Option<Probe<seq<byte>>>): seq<Probe<seq<byte>>> {
    if p.Some? then [p.value] else []
  }

  // ----- the whole section -----

  function ParseNotes(env: Env, data: seq<byte>, off: nat): seq<Probe<seq<byte>>>
    decreases |data| - off
  {
    match NoteAt(data, off)
    case Stop => []
    case Skip(next) => ParseNotes(env, data, next)
    case Read(desc, next) => Found(ProbeOf(env, desc)) + ParseNotes(env, data, next)
  }

  /** The probes a step contributes. */
  function StepProbes(env: Env, step: Step): seq<Probe<seq<byte>>>
    requires step.Read? ==> |step.desc| >= 24
  {
    if step.Read? then Found(ProbeOf(env, step.desc)) else []
  }

  lemma OneStep(env: Env, data: seq<byte>, off: nat, step: Step)
    requires step == NoteAt(data, off) && !step.Stop?
    ensures step.Read? ==> |step.desc| >= 24
    ensures ParseNotes(env, data, off) == StepProbes(env, step) + ParseNotes(env, data, step.next)
  {
  }

  /** The probes found so far and those still ahead are the probes of the section. */
  ghost predicate Walked(env: Env, data: seq<byte>, off: nat, probes: seq<Probe<seq<byte>>>) {
    ParseNotes(env, data, 0) == probes + ParseNotes(env, data, off)
  }

  lemma WalkStep(env: Env, data: seq<byte>, off: nat, probes: seq<Probe<seq<byte>>>, step: Step)
    requires Walked(env, data, off, probes) && step == NoteAt(data, off)
    ensures step.Stop? ==> probes == ParseNotes(env, data, 0)
    ensures step.Skip? ==> Walked(env, data, step.next, probes)
    ensures step.Read? ==> |step.desc| >= 24 && Walked(env, data, step.next, probes + Found(ProbeOf(env, step.desc)))
  {
    if !step.Stop? {
      OneStep(env, data, off, step);
      Regroup(probes, StepProbes(env, step), ParseNotes(env, data, step.next));
    }
  }

  lemma Regroup<T>(a: seq<T>, b: seq<T>, c: seq<T>)
    ensures a + (b + c) == (a + b) + c
    ensures b == [] ==> a + b == a
  {
  }

  /** The last section of a name decides. */
  function LastData(sections: seq<ElfSection>): Option<seq<byte>> {
    if sections == [] then None
    else
      var last := sections[|sections| - 1];
      if last.name == ".note.stapsdt" then last.data else LastData(sections[..|sections| - 1])
  }

  function LastBase(sections: seq<ElfSection>): u64 {
    if sections == [] then 0
    else
      var last := sections[|sections| - 1];
      if last.name == ".stapsdt.base" then last.addr else LastBase(sections[..|sections| - 1])
  }

  /** Section `k` is the last one of its name. */
  predicate LastNamed(sections: seq<ElfSection>, name: string, k: nat) {
    && k < |sections| && sections[k].name == name
    && forall j :: k < j < |sections| ==> sections[j].name != name
  }

  predicate NoneNamed(sections: seq<ElfSection>, name: string) {
    forall j :: 0 <= j < |sections| ==> sections[j].name != name
  }

  function Probes(sections: seq<ElfSection>, segs: seq<ElfProg>): seq<Probe<seq<byte>>> {
    match LastData(sections)
    case None => []
    case Some(data) => ParseNotes(Env(LastBase(sections), segs), data, 0)
  }

  lemma LastNamedInit(sections: seq<ElfSection>, name: string, k: nat)
    requires sections != []
    ensures var n := |sections| - 1;
      && (k < n && LastNamed(sections, name, k) ==> sections[n].name != name && LastNamed(sections[..n], name, k))
      && (NoneNamed(sections, name) ==> sections[n].name != name && NoneNamed(sections[..n], name))
  {
  }

  lemma {:induction false} LastSectionData(sections: seq<ElfSection>, k: nat)
    ensures LastNamed(sections, ".note.stapsdt", k) ==> LastData(sections) == sections[k].data
    ensures NoneNamed(sections, ".note.stapsdt") ==> LastData(sections) == None
  {
    if sections != [] {
      LastSectionData(sections[..|sections| - 1], k);
      LastNamedInit(sections, ".note.stapsdt", k);
    }
  }

  lemma {:induction false} LastSectionBase(sections: seq<ElfSection>, k: nat)
    ensures LastNamed(sections, ".stapsdt.base", k) ==> LastBase(sections) == sections[k].addr
    ensures NoneNamed(sections, ".stapsdt.base") ==> LastBase(sections) == 0
  {
    if sections != [] {
      LastSectionBase(sections[..|sections| - 1], k);
      LastNamedInit(sections, ".stapsdt.base", k);
    }
  }

  /** The base address: that of the last `.stapsdt.base` section, or 0 without one. */
  ghost predicate BaseIs(sections: seq<ElfSection>, base: u64) {
    || (exists m: nat :: LastNamed(sections, ".stapsdt.base", m) && sections[m].addr == base)
    || (NoneNamed(sections, ".stapsdt.base") && base == 0)
  }

  /** The last section of each name decides; without notes there are no probes. */
  lemma SectionsDecide(sections: seq<ElfSection>, segs: seq<ElfProg>, k: nat, base: u64)
    ensures NoneNamed(sections, ".note.stapsdt") ==> Probes(sections, segs) == []
    ensures LastNamed(sections, ".note.stapsdt", k) && BaseIs(sections, base) ==>
      Probes(sections, segs) ==
        match sections[k].data
        case None => []
        case Some(data) => ParseNotes(Env(base, segs), data, 0)
  {
    LastSectionData(sections, k);
    forall m: nat ensures LastNamed(sections, ".stapsdt.base", m) ==> LastBase(sections) == sections[m].addr {
      LastSectionBase(sections, m);
    }
    LastSectionBase(sections, 0);
  }

  /** Reading one descriptor, step by step. */
  method ReadDescriptor(baseAddr: u64, segs: seq<ElfProg>, desc: seq<byte>) returns (p: Option<Probe<seq<byte>>>)
    requires |desc| >= 24
    ensures p == ProbeOf(Env(baseAddr, segs), desc)
  {
    var location := U64At(desc, 0);
    var noteBase := U64At(desc, 8);
    var semaphore := U64At(desc, 16);
    if baseAddr != 0 && noteBase != 0 {
      var diff := Sub64(baseAddr, noteBase);
      location := Add64(location, diff);
      if semaphore != 0 {
        semaphore := Add64(semaphore, diff);
      }
    }
    var prog := FindLoadSegment(segs, location);
    if prog.Some? {
      location := Add64(Sub64(location, prog.value.vaddr), prog.value.off);
    }
    var semaphoreFileOffset: u64 := 0;
    if semaphore != 0 {
      var semaProg := FindLoadSegment(segs, semaphore);
      if semaProg.Some? {
        semaphoreFileOffset := Add64(Sub64(semaphore, semaProg.value.vaddr), semaProg.value.off);
      }
    }
    var parts := SplitNul(desc[24..]);
    if |parts| >= 3 {
      return Some(Probe(parts[0], parts[1], location, noteBase, semaphoreFileOffset, parts[2]));
    }
    return None;
  }

  /** The parser: find the two sections, then walk the notes. An unreadable file is an error. */
  method ParseProbes<E>(sections: Result<seq<ElfSection>, E>, loadSegs: seq<ElfProg>)
    returns (r: Result<seq<Probe<seq<byte>>>, E>)
    ensures sections.Err? ==> r == Err(sections.error)
    ensures sections.Ok? ==> r == Ok(Probes(sections.value, loadSegs))
  {
    if sections.Err? {
      return Err(sections.error);
    }
    var secs := sections.value;
    var stapsdtData: Option<seq<byte>> := None;
    var baseAddr: u64 := 0;
    for i := 0 to |secs|
      invariant stapsdtData == LastData(secs[..i]) && baseAddr == LastBase(secs[..i])
    {
      assert secs[..i + 1][..i] == secs[..i];
      match secs[i].name
      case ".note.stapsdt" => stapsdtData := secs[i].data;
      case ".stapsdt.base" => baseAddr := secs[i].addr;
      case _ =>
    }
    assert secs[..|secs|] == secs;
    if stapsdtData.None? {
      return Ok([]);
    }
    var probes := WalkNotes(baseAddr, loadSegs, stapsdtData.value);
    return Ok(probes);
  }

  /** `part` is the in-bounds slice of the section from byte `k` on. */
  predicate SliceAt(data: seq<byte>, part: seq<byte>, k: nat) {
    k + |part| <= |data| && part == data[k..k + |part|]
  }

  /** The header of the note at an offset, and what to do with the note. */
  method ReadNote(data: seq<byte>, off: nat) returns (step: Step)
    ensures step == NoteAt(data, off)
    ensures !step.Stop? ==> off + 12 <= |data| && off + 12 <= step.next
    ensures step.Read? ==> |step.desc| >= 24 && exists k :: off + 12 <= k && SliceAt(data, step.desc, k)
  {
    if off + 12 > |data| {
      return Stop;
    }
    var namesz := U32At(data, off);
    var descsz := U32At(data, off + 4);
    var noteType := U32At(data, off + 8);
    var nameEnd := off + 12 + Align4(namesz);
    if noteType != 3 {
      return Skip(nameEnd + Align4(descsz));
    }
    if nameEnd + descsz > |data| {
      return Stop;
    }
    var desc := data[nameEnd..nameEnd + descsz];
    assert SliceAt(data, desc, nameEnd);
    if |desc| < 24 {
      return Skip(nameEnd + Align4(descsz));
    }
    return Read(desc, nameEnd + Align4(descsz));
  }

  /** The note loop: every access is in bounds, and every round moves at least 12 bytes on. */
  method WalkNotes(baseAddr: u64, loadSegs: seq<ElfProg>, data: seq<byte>) returns (probes: seq<Probe<seq<byte>>>)
    ensures probes == ParseNotes(Env(baseAddr, loadSegs), data, 0)
  {
    ghost var env := Env(baseAddr, loadSegs);
    probes := [];
    var offset: nat := 0;
    while offset < |data|
      invariant Walked(env, data, offset, probes)
      decreases |data| - offset
    {
      var step := ReadNote(data, offset);
      WalkStep(env, data, offset, probes, step);
      match step
      case Stop =>
        return;
      case Skip(next) =>
        offset := next;
      case Read(desc, next) =>
        var probe := ReadDescriptor(baseAddr, loadSegs, desc);
        if probe.Some? {
          probes := probes + [probe.value];
        } else {
          Regroup(probes, [], []);
        }
        offset := next;
    }
    WalkStep(env, data, offset, probes, NoteAt(data, offset));
  }
}
