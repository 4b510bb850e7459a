/** Laws of the note parser over whole sections: truncation, concatenation, size, encoding, relocation. */
module NoteLaws {
  import opened Wrappers
  import opened Machine
  import opened StapsdtNotes

  // ----- truncation -----

  lemma NoteAtPrefix(data: seq<byte>, k: nat, off: nat)
    requires k <= |data|
    ensures NoteAt(data[..k], off).Stop? || NoteAt(data[..k], off) == NoteAt(data, off)
  {
    var cut := data[..k];
    if off + 12 <= k {
      assert cut[off..off + 4] == data[off..off + 4];
      assert cut[off + 4..off + 8] == data[off + 4..off + 8];
      assert cut[off + 8..off + 12] == data[off + 8..off + 12];
      var nameEnd, descsz := off + 12 + Align4(U32At(data, off)), U32At(data, off + 4);
      if nameEnd + descsz <= k {
        assert cut[nameEnd..nameEnd + descsz] == data[nameEnd..nameEnd + descsz];
      }
    }
  }

  /** Parsing a truncated section yields a prefix of the probes of the full section. */
  lemma {:induction false} TruncationGivesPrefix(env: Env, data: seq<byte>, k: nat, off: nat)
    requires k <= |data|
    ensures ParseNotes(env, data[..k], off) <= ParseNotes(env, data, off)
    decreases |data| - off
  {
    NoteAtPrefix(data, k, off);
    var step := NoteAt(data[..k], off);
    if !step.Stop? {
      TruncationGivesPrefix(env, data, k, step.next);
    }
  }

  // ----- concatenation -----

  /** A step of the loop, `d` bytes further on. */
  function Moved(step: Step, d: nat): Step {
    match step
    case Stop => Stop
    case Skip(next) => Skip(d + next)
    case Read(desc, next) => Read(desc, d + next)
  }

  lemma NoteAtSuffix(data: seq<byte>, k: nat, off: nat)
    requires k <= |data|
    ensures NoteAt(data, k + off) == Moved(NoteAt(data[k..], off), k)
  {
    var b, o := data[k..], k + off;
    if off + 12 <= |b| {
      assert data[o..o + 4] == b[off..off + 4];
      assert data[o + 4..o + 8] == b[off + 4..off + 8];
      assert data[o + 8..o + 12] == b[off + 8..off + 12];
      var nameEnd, descsz := off + 12 + Align4(U32At(b, off)), U32At(b, off + 4);
      if nameEnd + descsz <= |b| {
        assert data[k + nameEnd..k + nameEnd + descsz] == b[nameEnd..nameEnd + descsz];
      }
    }
  }

  lemma {:induction false} ParseSuffix(env: Env, data: seq<byte>, k: nat, off: nat)
    requires k <= |data|
    ensures ParseNotes(env, data, k + off) == ParseNotes(env, data[k..], off)
    decreases |data| - off
  {
    NoteAtSuffix(data, k, off);
    var step := NoteAt(data[k..], off);
    if !step.Stop? {
      ParseSuffix(env, data, k, step.next);
      SameStep(env, data, data[k..], k + off, off, Moved(step, k), step);
    }
  }

  /** Two walks that take steps with the same probes and agree from there on agree. */
  lemma SameStep(env: Env, a: seq<byte>, b: seq<byte>, i: nat, j: nat, step: Step, step': Step)
    requires step == NoteAt(a, i) && step' == NoteAt(b, j) && !step.Stop? && !step'.Stop?
    ensures
      (StepProbes(env, step) == StepProbes(env, step')
       && ParseNotes(env, a, step.next) == ParseNotes(env, b, step'.next)) ==>
        ParseNotes(env, a, i) == ParseNotes(env, b, j)
  {
    OneStep(env, a, i, step);
    OneStep(env, b, j, step');
  }

  /** The loop reaches the end of the section exactly, without giving up on a note. */
  predicate Consumes(data: seq<byte>, off: nat)
    decreases |data| - off
  {
    match NoteAt(data, off)
    case Stop => off == |data|
    case Skip(next) => Consumes(data, next)
    case Read(_, next) => Consumes(data, next)
  }

  lemma {:induction false} ConcatenationFrom(env: Env, a: seq<byte>, b: seq<byte>, off: nat)
    requires Consumes(a, off)
    ensures ParseNotes(env, a + b, off) == ParseNotes(env, a, off) + ParseNotes(env, b, 0)
    decreases |a| - off
  {
    assert a == (a + b)[..|a|];
    NoteAtPrefix(a + b, |a|, off);
    var step := NoteAt(a, off);
    if step.Stop? {
      ParseSuffix(env, a + b, |a|, 0);
      assert (a + b)[|a|..] == b;
    } else {
      ConcatenationFrom(env, a, b, step.next);
    }
  }

  /** If the loop consumes `a` exactly, the probes of `a + b` are those of `a` and then those of `b`. */
  lemma Concatenation(env: Env, a: seq<byte>, b: seq<byte>)
    requires Consumes(a, 0)
    ensures ParseNotes(env, a + b, 0) == ParseNotes(env, a, 0) + ParseNotes(env, b, 0)
  {
    ConcatenationFrom(env, a, b, 0);
  }

  // ----- size -----

  lemma Align4Bounds(x: u32)
    ensures x <= TWO_32 - 4 ==> x <= Align4(x) <= x + 3 && Align4(x) % 4 == 0
    ensures x > TWO_32 - 4 ==> Align4(x) == 0
  {
  }

  lemma {:induction false} ThreePartsNeedTwoNuls(s: seq<byte>)
    ensures |SplitNul(s)| >= 2 ==> |s| >= 1
    ensures |SplitNul(s)| >= 3 ==> |s| >= 2
  {
    var n := NulAt(s);
    if n < |s| {
      assert |SplitNul(s)| == 1 + |SplitNul(s[n + 1..])|;
      assert s[n + 1..] == [] ==> |SplitNul(s[n + 1..])| == 1;
    }
  }

  /**
   In a section too short for an in-bounds descriptor size to wrap when padded, every probe but the
   last takes at least 40 bytes and the last at least 38.
   */
  lemma {:induction false} ProbesNeedRoom(env: Env, data: seq<byte>, off: nat)
    requires |data| < TWO_32 + 9
    ensures ParseNotes(env, data, off) != [] ==>
      |data| - off >= 40 * |ParseNotes(env, data, off)| - 2
    decreases |data| - off
  {
    var step := NoteAt(data, off);
    if !step.Stop? {
      ProbesNeedRoom(env, data, step.next);
    }
    if step.Read? {
      ReadNeedsRoom(data, off, step);
      ThreePartsNeedTwoNuls(step.desc[24..]);
    }
  }

  lemma ReadNeedsRoom(data: seq<byte>, off: nat, step: Step)
    requires |data| < TWO_32 + 9 && step == NoteAt(data, off) && step.Read?
    ensures off + 12 + |step.desc| <= |data|
    ensures |step.desc| >= 26 ==> off + 40 <= step.next
  {
    Align4Bounds(U32At(data, off + 4));
  }

  // ----- encoding -----

  /** Any ELF note. */
  datatype Note = Note(noteType: u32, name: seq<byte>, desc: seq<byte>)

  function Padding(n: nat): (z: seq<byte>)
    ensures |z| < 4 && (n + |z|) % 4 == 0
  {
    seq((4 - n % 4) % 4, _ => 0)
  }

  /** Sizes that fit `uint32` even when padded. */
  predicate Fits(n: Note) {
    |n.name| <= TWO_32 - 4 && |n.desc| <= TWO_32 - 4
  }

  function EncodeNote(n: Note): seq<byte>
    requires Fits(n)
  {
    EncodeLittle(|n.name|, 4) + EncodeLittle(|n.desc|, 4) + EncodeLittle(n.noteType, 4)
    + (n.name + Padding(|n.name|)) + (n.desc + Padding(|n.desc|))
  }

  function EncodeNotes(notes: seq<Note>): seq<byte>
    requires forall i :: 0 <= i < |notes| ==> Fits(notes[i])
  {
    if notes == [] then [] else EncodeNote(notes[0]) + EncodeNotes(notes[1..])
  }

  /** The probe a note stands for: only complete SystemTap notes have one. */
  function NoteProbe(env: Env, n: Note): Option<Probe<seq<byte>>> {
    if n.noteType == 3 && |n.desc| >= 24 then ProbeOf(env, n.desc) else None
  }

  function NoteProbes(env: Env, notes: seq<Note>): seq<Probe<seq<byte>>> {
    if notes == [] then [] else Found(NoteProbe(env, notes[0])) + NoteProbes(env, notes[1..])
  }

  lemma PaddedLength(n: u32)
    requires n <= TWO_32 - 4
    ensures n + |Padding(n)| == Align4(n)
  {
    var q, r := n / 4, n % 4;
    assert n == 4 * q + r && (n + 3) % TWO_32 == n + 3;
    assert (n + 3) % 4 == if r == 0 then 3 else r - 1;
    assert |Padding(n)| == if r == 0 then 0 else 4 - r;
  }

  lemma HeaderRoundTrip(n: Note, rest: seq<byte>)
    requires Fits(n)
    ensures var data := EncodeNote(n) + rest;
      && |data| >= 12
      && U32At(data, 0) == |n.name| && U32At(data, 4) == |n.desc| && U32At(data, 8) == n.noteType
  {
    Pow2Of32();
    HeaderSlices(n, rest);
    DecodeEncode(Little, |n.name|, 4);
    DecodeEncode(Little, |n.desc|, 4);
    DecodeEncode(Little, n.noteType, 4);
  }

  lemma HeaderSlices(n: Note, rest: seq<byte>)
    requires Fits(n)
    ensures var data := EncodeNote(n) + rest;
      && |data| >= 12
      && data[0..4] == EncodeLittle(|n.name|, 4)
      && data[4..8] == EncodeLittle(|n.desc|, 4)
      && data[8..12] == EncodeLittle(n.noteType, 4)
  {
  }

  lemma BodyRoundTrip(n: Note, rest: seq<byte>)
    requires Fits(n)
    ensures var data, nameEnd := EncodeNote(n) + rest, 12 + |n.name| + |Padding(|n.name|)|;
      && |EncodeNote(n)| == nameEnd + |n.desc| + |Padding(|n.desc|)|
      && data[nameEnd..nameEnd + |n.desc|] == n.desc
  {
  }

  lemma NoteAtEncoded(n: Note, rest: seq<byte>)
    requires Fits(n)
    ensures NoteAt(EncodeNote(n) + rest, 0) ==
      if n.noteType == 3 && |n.desc| >= 24 then Read(n.desc, |EncodeNote(n)|) else Skip(|EncodeNote(n)|)
  {
    HeaderRoundTrip(n, rest);
    BodyRoundTrip(n, rest);
    PaddedLength(|n.name|);
    PaddedLength(|n.desc|);
  }

  /** Parsing encoded notes of any types gives exactly the probes of those notes, in order. */
  lemma {:induction false} EncodedNotesParse(env: Env, notes: seq<Note>)
    requires forall i :: 0 <= i < |notes| ==> Fits(notes[i])
    ensures ParseNotes(env, EncodeNotes(notes), 0) == NoteProbes(env, notes)
  {
    if notes != [] {
      EncodedNotesParse(env, notes[1..]);
      FirstEncodedNote(env, notes[0], EncodeNotes(notes[1..]));
    }
  }

  lemma StepOver(env: Env, data: seq<byte>, start: nat, step: Step)
    requires start == 0 && step == NoteAt(data, start) && !step.Stop? && step.next <= |data|
    ensures step.Read? ==> |step.desc| >= 24
    ensures ParseNotes(env, data, start) == StepProbes(env, step) + ParseNotes(env, data[step.next..], start)
  {
    OneStep(env, data, start, step);
    ParseSuffix(env, data, step.next, start);
  }

  lemma FirstEncodedNote(env: Env, n: Note, rest: seq<byte>)
    requires Fits(n)
    ensures ParseNotes(env, EncodeNote(n) + rest, 0) == Found(NoteProbe(env, n)) + ParseNotes(env, rest, 0)
  {
    var data, k := EncodeNote(n) + rest, |EncodeNote(n)|;
    NoteAtEncoded(n, rest);
    assert data[k..] == rest;
    StepOver(env, data, 0, NoteAt(data, 0));
  }

  // ----- notes that claim too much -----

  /** A note header, whatever it claims. */
  function Header(namesz: u32, descsz: u32, noteType: u32): (h: seq<byte>)
    ensures |h| == 12
  {
    EncodeLittle(namesz, 4) + EncodeLittle(descsz, 4) + EncodeLittle(noteType, 4)
  }

  lemma HeaderRead(namesz: u32, descsz: u32, noteType: u32, rest: seq<byte>)
    ensures var data := Header(namesz, descsz, noteType) + rest;
      U32At(data, 0) == namesz && U32At(data, 4) == descsz && U32At(data, 8) == noteType
  {
    var data := Header(namesz, descsz, noteType) + rest;
    Pow2Of32();
    assert data[0..4] == EncodeLittle(namesz, 4);
    assert data[4..8] == EncodeLittle(descsz, 4);
    assert data[8..12] == EncodeLittle(noteType, 4);
    DecodeEncode(Little, namesz, 4);
    DecodeEncode(Little, descsz, 4);
    DecodeEncode(Little, noteType, 4);
  }

  /** A SystemTap note whose descriptor does not fit into the section ends the search. */
  lemma OverrunStops(env: Env, name: seq<byte>, descsz: u32, body: seq<byte>)
    requires |name| <= TWO_32 - 4 && |body| < descsz
    ensures ParseNotes(env, Header(|name|, descsz, 3) + (name + Padding(|name|) + body), 0) == []
  {
    HeaderRead(|name|, descsz, 3, name + Padding(|name|) + body);
    PaddedLength(|name|);
  }

  /** The padded size of a note of another type can wrap to 0; then the next note starts behind its name. */
  lemma WrappedSizeSkips(env: Env, name: seq<byte>, descsz: u32, noteType: u32, body: seq<byte>)
    requires |name| <= TWO_32 - 4 && descsz > TWO_32 - 4 && noteType != 3
    ensures ParseNotes(env, Header(|name|, descsz, noteType) + (name + Padding(|name|) + body), 0)
      == ParseNotes(env, body, 0)
  {
    var data := Header(|name|, descsz, noteType) + (name + Padding(|name|) + body);
    var k := 12 + |name| + |Padding(|name|)|;
    HeaderRead(|name|, descsz, noteType, name + Padding(|name|) + body);
    PaddedLength(|name|);
    Align4Bounds(descsz);
    assert data[k..] == body;
    StepOver(env, data, 0, Skip(k));
  }

  // ----- SystemTap notes -----

  predicate NulFree(s: seq<byte>) {
    forall i :: 0 <= i < |s| ==> s[i] != 0
  }

  /** What a SystemTap note says, before any address is translated. */
  datatype StapProbe = StapProbe(
    location: u64, base: u64, semaphore: u64,
    provider: seq<byte>, name: seq<byte>, arguments: seq<byte>)

  function StapDesc(p: StapProbe): seq<byte> {
    EncodeLittle(p.location, 8) + EncodeLittle(p.base, 8) + EncodeLittle(p.semaphore, 8)
    + (p.provider + [0] + (p.name + [0] + (p.arguments + [0])))
  }

  /** "stapsdt" and its terminator. */
  const OWNER: seq<byte> := [0x73, 0x74, 0x61, 0x70, 0x73, 0x64, 0x74, 0]

  function StapNote(p: StapProbe): Note {
    Note(3, OWNER, StapDesc(p))
  }

  /** The probe with its addresses adjusted for prelinking and turned into file offsets. */
  function Translated(env: Env, p: StapProbe): Probe<seq<byte>> {
    Probe(p.provider, p.name,
          LocationOffset(env, Relocated(env, p.base, p.location)),
          p.base,
          SemaphoreOffset(env, AdjustedSemaphore(env, p.base, p.semaphore)),
          p.arguments)
  }

  lemma SplitAtNul(s: seq<byte>, rest: seq<byte>)
    requires NulFree(s)
    ensures SplitNul(s + [0] + rest) == [s] + SplitNul(rest)
  {
    var t := s + [0] + rest;
    var n := NulAt(t);
    assert t[|s|] == 0;
    assert n == |s| by {
      assert forall i :: 0 <= i < |s| ==> t[i] == s[i];
    }
    assert t[..n] == s && t[n + 1..] == rest;
  }

  /** Three strings, the last one followed by a NUL or by nothing. */
  lemma SplitStrings(a: seq<byte>, b: seq<byte>, c: seq<byte>, rest: seq<byte>)
    requires NulFree(a) && NulFree(b) && NulFree(c) && (rest == [] || rest[0] == 0)
    ensures var parts := SplitNul(a + [0] + (b + [0] + (c + rest)));
      |parts| >= 3 && parts[0] == a && parts[1] == b && parts[2] == c
  {
    SplitAtNul(a, b + [0] + (c + rest));
    SplitAtNul(b, c + rest);
    SplitFirst(c, rest);
  }

  lemma SplitFirst(c: seq<byte>, rest: seq<byte>)
    requires NulFree(c) && (rest == [] || rest[0] == 0)
    ensures SplitNul(c + rest)[0] == c
  {
    if rest == [] {
      assert c + rest == c && NulAt(c) == |c|;
    } else {
      assert rest == [0] + rest[1..] && c + rest == c + [0] + rest[1..];
      SplitAtNul(c, rest[1..]);
    }
  }

  lemma StapAddresses(p: StapProbe)
    ensures |StapDesc(p)| >= 24
    ensures U64At(StapDesc(p), 0) == p.location
    ensures U64At(StapDesc(p), 8) == p.base
    ensures U64At(StapDesc(p), 16) == p.semaphore
    ensures StapDesc(p)[24..] == p.provider + [0] + (p.name + [0] + (p.arguments + [0]))
  {
    var d := StapDesc(p);
    Pow2Of64();
    assert d[0..8] == EncodeLittle(p.location, 8);
    assert d[8..16] == EncodeLittle(p.base, 8);
    assert d[16..24] == EncodeLittle(p.semaphore, 8);
    DecodeEncode(Little, p.location, 8);
    DecodeEncode(Little, p.base, 8);
    DecodeEncode(Little, p.semaphore, 8);
  }

  lemma StapNoteProbe(env: Env, p: StapProbe)
    requires NulFree(p.provider) && NulFree(p.name) && NulFree(p.arguments)
    ensures NoteProbe(env, StapNote(p)) == Some(Translated(env, p))
  {
    StapAddresses(p);
    SplitStrings(p.provider, p.name, p.arguments, [0]);
  }

  /** An entry of a section: a SystemTap probe, or a note of another type. */
  datatype Entry = Stap(probe: StapProbe) | Other(note: Note)

  predicate Encodable(e: Entry) {
    match e
    case Stap(p) => NulFree(p.provider) && NulFree(p.name) && NulFree(p.arguments) && Fits(StapNote(p))
    case Other(n) => n.noteType != 3 && Fits(n)
  }

  function NoteOf(e: Entry): Note {
    if e.Stap? then StapNote(e.probe) else e.note
  }

  function NotesOf(entries: seq<Entry>): (notes: seq<Note>)
    ensures |notes| == |entries| && forall i :: 0 <= i < |entries| ==> notes[i] == NoteOf(entries[i])
  {
    seq(|entries|, i requires 0 <= i < |entries| => NoteOf(entries[i]))
  }

  function TranslatedAll(env: Env, entries: seq<Entry>): seq<Probe<seq<byte>>> {
    if entries == [] then []
    else (if entries[0].Stap? then [Translated(env, entries[0].probe)] else []) + TranslatedAll(env, entries[1..])
  }

  lemma {:induction false} ProbesOfEntries(env: Env, entries: seq<Entry>)
    requires forall i :: 0 <= i < |entries| ==> Encodable(entries[i])
    ensures NoteProbes(env, NotesOf(entries)) == TranslatedAll(env, entries)
  {
    if entries != [] {
      ProbesOfEntries(env, entries[1..]);
      assert NotesOf(entries)[1..] == NotesOf(entries[1..]);
      if entries[0].Stap? {
        StapNoteProbe(env, entries[0].probe);
      }
    }
  }

  /**
   Note round trip: encoding probes, interleaved with any notes of other types, and parsing the
   section gives back exactly those probes, in order, with translated addresses.
   */
  lemma SectionRoundTrip(env: Env, entries: seq<Entry>)
    requires forall i :: 0 <= i < |entries| ==> Encodable(entries[i])
    ensures forall i :: 0 <= i < |entries| ==> Fits(NotesOf(entries)[i])
    ensures ParseNotes(env, EncodeNotes(NotesOf(entries)), 0) == TranslatedAll(env, entries)
  {
    EncodedNotesParse(env, NotesOf(entries));
    ProbesOfEntries(env, entries);
  }

  // ----- the addresses of a probe, in plain arithmetic -----

  /** The address lies in the segment, and the segment does not wrap. */
  predicate Covers(seg: ElfProg, addr: int) {
    seg.vaddr + seg.memsz < TWO_64 && seg.vaddr <= addr < seg.vaddr + seg.memsz
  }

  predicate FirstCover(segs: seq<ElfProg>, addr: int, k: nat) {
    k < |segs| && Covers(segs[k], addr) && forall j :: 0 <= j < k ==> !Covers(segs[j], addr)
  }

  predicate Uncovered(segs: seq<ElfProg>, addr: int) {
    forall k :: 0 <= k < |segs| ==> !Covers(segs[k], addr)
  }

  lemma ContainsIsCovers(seg: ElfProg, addr: u64)
    ensures Contains(seg, addr) <==> Covers(seg, addr)
  {
  }

  lemma {:induction false} FirstCoverFound(segs: seq<ElfProg>, addr: u64)
    ensures forall k: nat :: FirstCover(segs, addr, k) ==> FindSegment(segs, addr) == Some(segs[k])
    ensures Uncovered(segs, addr) ==> FindSegment(segs, addr) == None
  {
    if segs != [] {
      ContainsIsCovers(segs[0], addr);
      FirstCoverFound(segs[1..], addr);
      forall k: nat | 0 < k && FirstCover(segs, addr, k) ensures FirstCover(segs[1..], addr, k - 1) {
        assert segs[1..][k - 1] == segs[k];
        assert forall j :: 0 <= j < k - 1 ==> segs[1..][j] == segs[j + 1];
      }
    }
  }

  /** `off` is the file offset of an address: through the first segment that covers it, else `missing`. */
  ghost predicate IsFileOffset(segs: seq<ElfProg>, addr: int, missing: int, off: int) {
    && (forall k: nat :: FirstCover(segs, addr, k) ==> off == (segs[k].off + (addr - segs[k].vaddr)) % TWO_64)
    && (Uncovered(segs, addr) ==> off == missing)
  }

  /** An address after prelinking: moved with the base, when the file and the note both have one. */
  function Prelinked(baseAddr: u64, noteBase: u64, addr: u64): int {
    if baseAddr == 0 || noteBase == 0 then addr else (addr + baseAddr - noteBase) % TWO_64
  }

  lemma RelocatedIsPrelinked(env: Env, noteBase: u64, addr: u64)
    ensures Relocated(env, noteBase, addr) == Prelinked(env.baseAddr, noteBase, addr)
  {
    WrapAdd(addr, env.baseAddr - noteBase);
  }

  lemma OffsetsInFile(env: Env, addr: u64)
    ensures IsFileOffset(env.segs, addr, addr, LocationOffset(env, addr))
    ensures addr != 0 ==> IsFileOffset(env.segs, addr, 0, SemaphoreOffset(env, addr))
  {
    FirstCoverFound(env.segs, addr);
    forall k: nat | FirstCover(env.segs, addr, k)
      ensures FileOffset(env.segs[k], addr) == (env.segs[k].off + (addr - env.segs[k].vaddr)) % TWO_64
    {
      assert Sub64(addr, env.segs[k].vaddr) == addr - env.segs[k].vaddr;
    }
  }

  /**
   Where a note's addresses end up: the location as a file offset (or as an address where no segment
   covers it), and the semaphore's file offset, or 0 where there is none or no segment covers it.
   */
  ghost predicate AddressesIn(
    env: Env, noteBase: u64, location: u64, semaphore: u64, offset: u64, semaphoreOffset: u64)
  {
    var loc, sem := Prelinked(env.baseAddr, noteBase, location), Prelinked(env.baseAddr, noteBase, semaphore);
    && IsFileOffset(env.segs, loc, loc, offset)
    && (semaphore == 0 || sem == 0 ==> semaphoreOffset == 0)
    && (semaphore != 0 && sem != 0 ==> IsFileOffset(env.segs, sem, 0, semaphoreOffset))
  }

  lemma AddressesFound(env: Env, noteBase: u64, location: u64, semaphore: u64)
    ensures AddressesIn(
      env, noteBase, location, semaphore,
      LocationOffset(env, Relocated(env, noteBase, location)),
      SemaphoreOffset(env, AdjustedSemaphore(env, noteBase, semaphore)))
  {
    RelocatedIsPrelinked(env, noteBase, location);
    RelocatedIsPrelinked(env, noteBase, semaphore);
    OffsetsInFile(env, Relocated(env, noteBase, location));
    OffsetsInFile(env, Relocated(env, noteBase, semaphore));
  }

  /** The probe of an encoded note, in plain arithmetic: its texts, its base and its addresses. */
  lemma EncodedProbe(env: Env, p: StapProbe)
    requires NulFree(p.provider) && NulFree(p.name) && NulFree(p.arguments) && Fits(StapNote(p))
    ensures var probes := ParseNotes(env, EncodeNote(StapNote(p)), 0);
      && |probes| == 1
      && probes[0].provider == p.provider && probes[0].name == p.name && probes[0].arguments == p.arguments
      && probes[0].base == p.base
      && AddressesIn(env, p.base, p.location, p.semaphore, probes[0].location, probes[0].semaphoreOffset)
  {
    FirstEncodedNote(env, StapNote(p), []);
    assert EncodeNote(StapNote(p)) + [] == EncodeNote(StapNote(p));
    StapNoteProbe(env, p);
    AddressesFound(env, p.base, p.location, p.semaphore);
  }

  // ----- the strings of any descriptor -----

  /**
   Two NULs behind the addresses make a probe. Its texts lie before, between and behind them, and the
   last need not be terminated.
   */
  lemma DescriptorStrings(
    env: Env, desc: seq<byte>, provider: seq<byte>, name: seq<byte>, arguments: seq<byte>, rest: seq<byte>)
    requires NulFree(provider) && NulFree(name) && NulFree(arguments) && (rest == [] || rest[0] == 0)
    requires |desc| >= 24 && desc[24..] == provider + [0] + (name + [0] + (arguments + rest))
    ensures var p := ProbeOf(env, desc);
      p.Some? && p.value.provider == provider && p.value.name == name && p.value.arguments == arguments
  {
    SplitStrings(provider, name, arguments, rest);
  }

  /** With fewer than two NULs there is no probe. */
  lemma TooFewStrings(env: Env, desc: seq<byte>)
    requires |desc| >= 24
    requires forall i, j :: 24 <= i < j < |desc| ==> desc[i] != 0 || desc[j] != 0
    ensures ProbeOf(env, desc) == None
  {
    var s := desc[24..];
    var n := NulAt(s);
    if n < |s| {
      var rest := s[n + 1..];
      forall m | 0 <= m < |rest| ensures rest[m] != 0 {
        assert desc[24 + n] == 0 && rest[m] == desc[24 + n + 1 + m];
      }
      NoNul(rest);
    }
  }

  lemma NoNul(s: seq<byte>)
    requires NulFree(s)
    ensures SplitNul(s) == [s]
  {
    assert NulAt(s) == |s|;
  }

  // ----- what translation means -----

  /** The prelink adjustment keeps every address's distance from the base. */
  lemma PrelinkKeepsDistance(env: Env, noteBase: u64, addr: u64)
    requires env.baseAddr != 0 && noteBase != 0
    ensures Sub64(Relocated(env, noteBase, addr), env.baseAddr) == Sub64(addr, noteBase)
  {
    var diff := env.baseAddr - noteBase;
    WrapAdd(addr, diff);
    WrapAdd(0 - (env.baseAddr as int), addr + diff);
  }

  /**
   A covered location lies as far into the segment's file contents as the address lies into the
   segment: for segments that do not wrap, plainly off + (addr - vaddr), below off + memsz.
   */
  lemma FileOffsetKeepsDistance(env: Env, addr: u64, seg: ElfProg)
    requires FindSegment(env.segs, addr) == Some(seg)
    ensures Sub64(LocationOffset(env, addr), seg.off) == Sub64(addr, seg.vaddr)
    ensures seg.off + seg.memsz < TWO_64 ==>
      && LocationOffset(env, addr) == seg.off + (addr - seg.vaddr)
      && seg.off <= LocationOffset(env, addr) < seg.off + seg.memsz
    ensures addr != 0 ==> SemaphoreOffset(env, addr) == LocationOffset(env, addr)
  {
    var d := addr - seg.vaddr;
    assert Contains(seg, addr);
    assert 0 <= d < TWO_64 && Sub64(addr, seg.vaddr) == d;
    WrapAdd(0 - (seg.off as int), d + seg.off);
    assert seg.off + seg.memsz < TWO_64 ==> d < seg.memsz;
  }

  // ----- relocation -----

  /** Segments whose end address does not wrap. */
  predicate Bounded(seg: ElfProg) {
    seg.vaddr + seg.memsz < TWO_64
  }

  /**
   The containment test is the wrap-free one, (addr - vaddr) mod 2^64 < memsz, for every address
   exactly when the segment's end does not wrap (or the segment is empty).
   */
  lemma ContainmentExact(seg: ElfProg)
    ensures (forall addr: u64 :: Contains(seg, addr) <==> Sub64(addr, seg.vaddr) < seg.memsz)
      <==> seg.memsz == 0 || Bounded(seg)
  {
    if seg.memsz == 0 || Bounded(seg) {
      forall addr: u64 ensures Contains(seg, addr) <==> Sub64(addr, seg.vaddr) < seg.memsz {
        BoundedContainment(seg, addr);
      }
    } else {
      assert !Contains(seg, seg.vaddr) && Sub64(seg.vaddr, seg.vaddr) == 0;
    }
  }

  /** A segment contains no address at all exactly when it is empty or its end wraps. */
  lemma ContainsNothing(seg: ElfProg)
    ensures (forall addr: u64 :: !Contains(seg, addr)) <==> seg.memsz == 0 || !Bounded(seg)
  {
    assert Contains(seg, seg.vaddr) <==> seg.memsz != 0 && Bounded(seg);
  }

  lemma BoundedContainment(seg: ElfProg, addr: u64)
    requires seg.memsz == 0 || Bounded(seg)
    ensures Contains(seg, addr) <==> Sub64(addr, seg.vaddr) < seg.memsz
  {
  }

  function MovedSegment(seg: ElfProg, d: u64): ElfProg {
    seg.(vaddr := Add64(seg.vaddr, d))
  }

  function MovedSegments(segs: seq<ElfProg>, d: u64): (r: seq<ElfProg>)
    ensures |r| == |segs| && forall i :: 0 <= i < |segs| ==> r[i] == MovedSegment(segs[i], d)
  {
    seq(|segs|, i requires 0 <= i < |segs| => MovedSegment(segs[i], d))
  }

  /** The whole image moved by `d`: `.stapsdt.base` and every segment. */
  function MovedEnv(env: Env, d: u64): Env {
    Env(Add64(env.baseAddr, d), MovedSegments(env.segs, d))
  }

  lemma SubMoved(x: u64, y: u64, d: u64)
    ensures Sub64(Add64(x, d), Add64(y, d)) == Sub64(x, y)
  {
    var k := if x + d < TWO_64 then 0 else 1;
    var l := if y + d < TWO_64 then 0 else 1;
    assert Add64(x, d) == x + d - k * TWO_64 && Add64(y, d) == y + d - l * TWO_64;
  }

  lemma AddMoved(x: u64, b: u64, c: u64, d: u64)
    ensures Add64(x, Sub64(Add64(b, d), c)) == Add64(Add64(x, Sub64(b, c)), d)
  {
    calc {
      Add64(x, Sub64(Add64(b, d), c));
      { WrapAdd(0 - (c as int), b + d); }
      (x + (b + d - c) % TWO_64) % TWO_64;
      { WrapAdd(x, b + d - c); }
      (x + d + (b - c)) % TWO_64;
      { WrapAdd(x + d, b - c); }
      (d + (x + Sub64(b, c))) % TWO_64;
      { WrapAdd(d, x + Sub64(b, c)); }
      Add64(Add64(x, Sub64(b, c)), d);
    }
  }

  predicate Movable(segs: seq<ElfProg>, d: u64) {
    forall i :: 0 <= i < |segs| ==> Bounded(segs[i]) && Bounded(MovedSegment(segs[i], d))
  }

  /** The moved address is in the moved segments just where the address was in the segments. */
  lemma {:induction false} MovedFind(segs: seq<ElfProg>, addr: u64, d: u64)
    requires Movable(segs, d)
    ensures FindSegment(MovedSegments(segs, d), Add64(addr, d)) ==
      match FindSegment(segs, addr)
      case None => None
      case Some(seg) => Some(MovedSegment(seg, d))
  {
    if segs != [] {
      var seg := segs[0];
      assert Bounded(seg) && Bounded(MovedSegment(seg, d));
      BoundedContainment(seg, addr);
      BoundedContainment(MovedSegment(seg, d), Add64(addr, d));
      SubMoved(addr, seg.vaddr, d);
      assert MovedSegments(segs, d)[1..] == MovedSegments(segs[1..], d);
      MovedFind(segs[1..], addr, d);
    }
  }

  lemma MovedAddress(env: Env, d: u64, noteBase: u64, addr: u64)
    requires env.baseAddr != 0 && MovedEnv(env, d).baseAddr != 0 && noteBase != 0
    ensures Relocated(MovedEnv(env, d), noteBase, addr) == Add64(Relocated(env, noteBase, addr), d)
  {
    AddMoved(addr, env.baseAddr, noteBase, d);
  }

  /** The address of a location is covered, or nothing moves. */
  predicate LocationStays(env: Env, d: u64, noteBase: u64, location: u64) {
    FindSegment(env.segs, Relocated(env, noteBase, location)).Some? || d == 0
  }

  /** A location survives a move exactly when a segment covers it, or nothing moved. */
  lemma LocationInvariantExactly(env: Env, d: u64, noteBase: u64, location: u64)
    requires env.baseAddr != 0 && MovedEnv(env, d).baseAddr != 0 && noteBase != 0 && Movable(env.segs, d)
    ensures LocationOffset(MovedEnv(env, d), Relocated(MovedEnv(env, d), noteBase, location))
      == LocationOffset(env, Relocated(env, noteBase, location))
      <==> LocationStays(env, d, noteBase, location)
  {
    var addr := Relocated(env, noteBase, location);
    MovedAddress(env, d, noteBase, location);
    MovedFind(env.segs, addr, d);
    if FindSegment(env.segs, addr).Some? {
      SubMoved(addr, FindSegment(env.segs, addr).value.vaddr, d);
    }
  }

  /**
   There is no semaphore, or none that a segment covers, or it sits at the very start of the file, or
   its address is not 0 (which would read as no semaphore) on one side of the move only.
   */
  predicate SemaphoreStays(env: Env, d: u64, noteBase: u64, semaphore: u64) {
    var addr := Relocated(env, noteBase, semaphore);
    || semaphore == 0
    || (addr == 0 <==> Add64(addr, d) == 0)
    || match FindSegment(env.segs, addr)
       case None => true
       case Some(seg) => FileOffset(seg, addr) == 0
  }

  lemma SemaphoreInvariantExactly(env: Env, d: u64, noteBase: u64, semaphore: u64)
    requires env.baseAddr != 0 && MovedEnv(env, d).baseAddr != 0 && noteBase != 0 && Movable(env.segs, d)
    ensures SemaphoreOffset(MovedEnv(env, d), AdjustedSemaphore(MovedEnv(env, d), noteBase, semaphore))
      == SemaphoreOffset(env, AdjustedSemaphore(env, noteBase, semaphore))
      <==> SemaphoreStays(env, d, noteBase, semaphore)
  {
    if semaphore != 0 {
      var addr := Relocated(env, noteBase, semaphore);
      MovedAddress(env, d, noteBase, semaphore);
      MovedFind(env.segs, addr, d);
      if FindSegment(env.segs, addr).Some? {
        SubMoved(addr, FindSegment(env.segs, addr).value.vaddr, d);
      }
    }
  }

  /** Both addresses of a descriptor survive the move, or its strings make no probe. */
  predicate Relocatable(env: Env, d: u64, desc: seq<byte>)
    requires |desc| >= 24
  {
    var location, noteBase, semaphore := U64At(desc, 0), U64At(desc, 8), U64At(desc, 16);
    |SplitNul(desc[24..])| >= 3 ==>
      LocationStays(env, d, noteBase, location) && SemaphoreStays(env, d, noteBase, semaphore)
  }

  lemma MovedProbe(env: Env, d: u64, desc: seq<byte>)
    requires |desc| >= 24 && U64At(desc, 8) != 0
    requires env.baseAddr != 0 && MovedEnv(env, d).baseAddr != 0 && Movable(env.segs, d)
    ensures ProbeOf(MovedEnv(env, d), desc) == ProbeOf(env, desc) <==> Relocatable(env, d, desc)
    ensures ProbeOf(MovedEnv(env, d), desc).Some? <==> ProbeOf(env, desc).Some?
  {
    var noteBase := U64At(desc, 8);
    LocationInvariantExactly(env, d, noteBase, U64At(desc, 0));
    SemaphoreInvariantExactly(env, d, noteBase, U64At(desc, 16));
  }

  /** Every descriptor the loop reads records a base to adjust against. */
  predicate AllBased(data: seq<byte>, off: nat)
    decreases |data| - off
  {
    match NoteAt(data, off)
    case Stop => true
    case Skip(next) => AllBased(data, next)
    case Read(desc, next) => U64At(desc, 8) != 0 && AllBased(data, next)
  }

  /** Every descriptor the loop reads is relocatable. */
  predicate AllRelocatable(env: Env, d: u64, data: seq<byte>, off: nat)
    decreases |data| - off
  {
    match NoteAt(data, off)
    case Stop => true
    case Skip(next) => AllRelocatable(env, d, data, next)
    case Read(desc, next) => Relocatable(env, d, desc) && AllRelocatable(env, d, data, next)
  }

  lemma SameParts<T>(a: seq<T>, a': seq<T>, b: seq<T>, b': seq<T>)
    requires |a| == |a'|
    ensures a + b == a' + b' <==> a == a' && b == b'
  {
    if a + b == a' + b' {
      assert a == (a + b)[..|a|] && a' == (a' + b')[..|a|];
      assert b == (a + b)[|a|..] && b' == (a' + b')[|a|..];
    }
  }

  /** Relocation invariance: an image moved as a whole yields identical probes exactly when all survive the move. */
  lemma {:induction false} RelocationInvariance(env: Env, d: u64, data: seq<byte>, off: nat)
    requires env.baseAddr != 0 && MovedEnv(env, d).baseAddr != 0 && Movable(env.segs, d)
    requires AllBased(data, off)
    ensures ParseNotes(MovedEnv(env, d), data, off) == ParseNotes(env, data, off) <==> AllRelocatable(env, d, data, off)
    decreases |data| - off
  {
    var step, moved := NoteAt(data, off), MovedEnv(env, d);
    if !step.Stop? {
      RelocationInvariance(env, d, data, step.next);
      OneStep(env, data, off, step);
      OneStep(moved, data, off, step);
      if step.Read? {
        MovedProbe(env, d, step.desc);
        SameParts(StepProbes(moved, step), StepProbes(env, step),
                  ParseNotes(moved, data, step.next), ParseNotes(env, data, step.next));
      }
    }
  }
}
