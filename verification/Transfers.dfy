/** Data in and out of buffers, integrity checks, and export and import of descriptors. */
module Transfers {
  import opened Wrappers
  import opened Words
  import opened Types
  import opened SizeClass
  import opened Storage
  import opened Records
  import opened Ownership
  import opened Contents
  import opened Crc32c
  import opened Protocol
  import opened Tokens
  import opened Runs
  import opened Lifetimes

  // ------------------------------------------------------------------ reading back

  /** copy_to: the buffer's first bytes go to the caller's memory at dstOffset. The offset also counts
      against the buffer's size. */
  function CopyTo(s: State, h: nat, dst: seq<Byte>, dstOffset: nat, len: nat): Result<seq<Byte>>
    requires dstOffset + len <= |dst|
  {
    match EnsureValid(s, h, READ)
    case Err(e) => Err(e)
    case Ok(c) =>
      var r := s.store.recs[c];
      if dstOffset > r.size || len > r.size - dstOffset || len > r.backing.committed || len > |Bytes(s.store, c)|
      then Err(BoundsError)
      else Ok(dst[..dstOffset] + Bytes(s.store, c)[..len] + dst[dstOffset + len..])
  }

  /** checksum, for buffers the CPU can read. */
  function Checksum(s: State, h: nat): Result<nat> {
    match Alive(s, h)
    case Err(e) => Err(e)
    case Ok(c) =>
      if s.store.recs[c].domain == DEVICE then Err(UnsupportedCapability) else Ok(Crc(Bytes(s.store, c), 0))
  }

  /** A handle on control c that is alive after the run. */
  ghost predicate StillAlive(s: State, h: nat, c: nat) {
    Alive(s, h) == Ok(c)
  }

  /** What was in buffer c stays there through any run that does not write to it, migrations included. */
  lemma BytesKept(s: State, ops: seq<Op>, c: nat, h: nat)
    requires Safe(s.store) && Live(s.store, c)
    requires Meets(Spares(c), s, ops) && StillAlive(StepAll(s, ops), h, c)
    ensures
      var st' := StepAll(s, ops).store;
      Live(st', c) && Bytes(st', c) == Bytes(s.store, c) && |Bytes(st', c)| == st'.recs[c].size <= st'.recs[c].backing.committed
  {
    RunProjects(Spares(c), s, ops);
    AliveMeans(StepAll(s, ops), h);
    RunKeepsBytes(s.store, History(s, ops), c);
    SafeFrom(s.store, History(s, ops));
    BytesLength(StepAll(s, ops).store, c);
  }

  lemma CopyFromMeans(s: State, h: nat, data: seq<Byte>, copyOk: bool)
    requires CopyFrom(s, h, data, copyOk).1.Ok?
    ensures
      && Alive(s, h).Ok? && Alive(s, h).value == s.tokens[h].ctl
      && CanWrite(s.store, s.tokens[h].ctl, |data|)
      && CopyFrom(s, h, data, copyOk).0.store == WriteBuffer(s.store, s.tokens[h].ctl, data)
  {
    AliveMeans(s, h);
  }

  lemma WrittenBytes(st: Store, c: nat, data: seq<Byte>)
    requires Safe(st) && CanWrite(st, c, |data|)
    ensures
      var st' := WriteBuffer(st, c, data);
      Safe(st') && Live(st', c) && Bytes(st', c) == data + Bytes(st, c)[|data|..]
  {
    StepSafe(st, DoWrite(c, data));
    assert RecordOk(st.cfg, st.mem, st.recs[c]);
    WriteBytes(st, c, data);
  }

  /** copy_to, exactly: from a handle that is alive it succeeds if and only if offset and length together
      fit the buffer, and then the caller's memory holds the buffer's first bytes at that offset. */
  lemma CopyToExactly(s: State, h: nat, c: nat, dst: seq<Byte>, dstOffset: nat, len: nat)
    requires StillAlive(s, h, c) && c < |s.store.recs| && dstOffset + len <= |dst|
    requires |Bytes(s.store, c)| == s.store.recs[c].size <= s.store.recs[c].backing.committed
    ensures CopyTo(s, h, dst, dstOffset, len) ==
            if dstOffset + len <= s.store.recs[c].size
            then Ok(dst[..dstOffset] + Bytes(s.store, c)[..len] + dst[dstOffset + len..])
            else Err(BoundsError)
  {
  }

  /** Read your writes: what copy_from stored is what copy_to delivers later, at any offset of the caller's
      memory and through any handle on the buffer, whatever happened in between short of another write. */
  lemma ReadBack(
    s: State, h: nat, data: seq<Byte>, copyOk: bool, ops: seq<Op>, h': nat, dst: seq<Byte>, dstOffset: nat, len: nat)
    requires Safe(s.store) && CopyFrom(s, h, data, copyOk).1.Ok?
    requires Meets(Spares(s.tokens[h].ctl), CopyFrom(s, h, data, copyOk).0, ops)
    requires StillAlive(StepAll(CopyFrom(s, h, data, copyOk).0, ops), h', s.tokens[h].ctl)
    requires len <= |data| && dstOffset + len <= |dst|
    ensures CopyTo(StepAll(CopyFrom(s, h, data, copyOk).0, ops), h', dst, dstOffset, len) ==
            if dstOffset + len <= s.store.recs[s.tokens[h].ctl].size
            then Ok(dst[..dstOffset] + data[..len] + dst[dstOffset + len..])
            else Err(BoundsError)
  {
    var c, s1 := s.tokens[h].ctl, CopyFrom(s, h, data, copyOk).0;
    CopyFromMeans(s, h, data, copyOk);
    WrittenBytes(s.store, c, data);
    BytesKept(s1, ops, c, h');
    BytesLength(s.store, c);
    Delivers(StepAll(s1, ops), h', c, data, Bytes(s.store, c)[|data|..], dst, dstOffset, len);
  }

  lemma Delivers(s: State, h: nat, c: nat, data: seq<Byte>, rest: seq<Byte>, dst: seq<Byte>, dstOffset: nat, len: nat)
    requires StillAlive(s, h, c) && c < |s.store.recs| && len <= |data| && dstOffset + len <= |dst|
    requires Bytes(s.store, c) == data + rest && |data + rest| == s.store.recs[c].size <= s.store.recs[c].backing.committed
    ensures CopyTo(s, h, dst, dstOffset, len) ==
            if dstOffset + len <= |data + rest| then Ok(dst[..dstOffset] + data[..len] + dst[dstOffset + len..])
            else Err(BoundsError)
  {
    CopyToExactly(s, h, c, dst, dstOffset, len);
    assert Bytes(s.store, c)[..len] == data[..len];
  }

  /** The checksum is an invariant of the buffer, not of where it lives. */
  lemma ChecksumKept(s: State, h: nat, ops: seq<Op>, h': nat)
    requires Safe(s.store) && Checksum(s, h).Ok?
    requires Meets(Spares(s.tokens[h].ctl), s, ops)
    requires StillAlive(StepAll(s, ops), h', s.tokens[h].ctl) && Checksum(StepAll(s, ops), h').Ok?
    ensures Checksum(StepAll(s, ops), h') == Checksum(s, h)
  {
    AliveMeans(s, h);
    BytesKept(s, ops, s.tokens[h].ctl, h');
  }

  /** Two states whose buffers differ, but only within four adjacent bytes, have different checksums. */
  lemma ChecksumTells(s: State, h: nat, s': State, h': nat, i: nat)
    requires Checksum(s, h).Ok? && Checksum(s', h').Ok?
    requires
      var a, b := Bytes(s.store, s.tokens[h].ctl), Bytes(s'.store, s'.tokens[h'].ctl);
      |a| == |b| && a != b && i <= |a| && forall j :: 0 <= j < |a| && !(i <= j < i + 4) ==> a[j] == b[j]
    ensures Checksum(s, h) != Checksum(s', h')
  {
    FourBytesDetected(Bytes(s.store, s.tokens[h].ctl), Bytes(s'.store, s'.tokens[h'].ctl), 0, i);
  }

  // ------------------------------------------------------------------ verify

  /** verify: the backend's probe, then the metadata checksum if one was ever stored. */
  function Verify(s: State, h: nat, backendOk: bool): Result<()> {
    match Alive(s, h)
    case Err(e) => Err(e)
    case Ok(c) =>
      if s.store.recs[c].domain !in s.store.cfg.domains then Err(UnsupportedDomain)
      else if !backendOk then Err(BackendFailure)
      else if s.store.recs[c].metaCrc != 0 && MetaCrc(s.store.recs[c]) != s.store.recs[c].metaCrc then Err(IntegrityFailure)
      else Ok(())
  }

  /** No false alarm: in every run verify succeeds if and only if the handle is alive, the domain is
      enabled and the backend is content. */
  lemma VerifyExact(s: State, h: nat, backendOk: bool)
    requires Coherent(s)
    ensures Verify(s, h, backendOk).Ok? <==>
            Alive(s, h).Ok? && s.store.recs[s.tokens[h].ctl].domain in s.store.cfg.domains && backendOk
  {
    if Alive(s, h).Ok? {
      AliveMeans(s, h);
      assert Shaped(s.store.cfg, s.store.recs[s.tokens[h].ctl]);
    }
  }

  /** The state with record c overwritten by r. */
  function Corrupted(s: State, c: nat, r: Record): State
    requires c < |s.store.recs|
  {
    s.(store := s.store.(recs := s.store.recs[c := r]))
  }

  /** No silent damage: once a checksum is stored, any change to a record's metadata that is confined to
      four adjacent bytes makes verify fail. */
  lemma VerifyDetects(s: State, h: nat, backendOk: bool, r: Record, i: nat)
    requires Coherent(s) && Alive(s, h).Ok?
    requires
      var r0 := s.store.recs[s.tokens[h].ctl];
      && r.metaCrc == r0.metaCrc != 0
      && |MetaBytes(r)| == |MetaBytes(r0)| && MetaBytes(r) != MetaBytes(r0) && i <= |MetaBytes(r)|
      && forall j :: 0 <= j < |MetaBytes(r)| && !(i <= j < i + 4) ==> MetaBytes(r)[j] == MetaBytes(r0)[j]
    ensures Verify(Corrupted(s, s.tokens[h].ctl, r), h, backendOk).Err?
  {
    AliveMeans(s, h);
    var c := s.tokens[h].ctl;
    assert s.store.recs[c].metaCrc == MetaCrc(s.store.recs[c]) by {
      assert Shaped(s.store.cfg, s.store.recs[c]);
    }
    DamageShows(r, s.store.recs[c], i);
    MismatchFails(Corrupted(s, c, r), h, c, backendOk);
  }

  lemma MismatchFails(s: State, h: nat, c: nat, backendOk: bool)
    requires h < |s.tokens| && s.tokens[h].ctl == c < |s.store.recs|
    requires s.store.recs[c].metaCrc != 0 && MetaCrc(s.store.recs[c]) != s.store.recs[c].metaCrc
    ensures Verify(s, h, backendOk).Err?
  {
  }

  lemma DamageShows(r: Record, r0: Record, i: nat)
    requires r0.metaCrc == MetaCrc(r0)
    requires |MetaBytes(r)| == |MetaBytes(r0)| && MetaBytes(r) != MetaBytes(r0) && i <= |MetaBytes(r)|
    requires forall j :: 0 <= j < |MetaBytes(r)| && !(i <= j < i + 4) ==> MetaBytes(r)[j] == MetaBytes(r0)[j]
    ensures MetaCrc(r) != r0.metaCrc
  {
    FourBytesDetected(MetaBytes(r), MetaBytes(r0), 0, i);
  }

  // ------------------------------------------------------------------ export and import

  /** The namespace may import what it exported. */
  predicate Authorized(nss: map<NamespaceId, NamespaceConfig>, d: Descriptor, ns: NamespaceId) {
    ns == d.ns && ns in nss && nss[ns].allowImport
  }

  /** The format checks of import. */
  ghost predicate Importable(d: Descriptor) {
    d.version == FORMAT_VERSION && 0 < d.size <= MAX_REQUEST && (d.alignment == 0 || IsPow2(d.alignment))
  }

  lemma ImportAllowedExactly(st: Store, d: Descriptor, ns: NamespaceId)
    ensures ImportAllowed(st, d, ns).Ok? <==> Importable(d) && Authorized(st.nss, d, ns)
  {
    if d.alignment > 0 {
      Pow2Test(d.alignment);
    }
  }

  /** Import of any descriptor, true or made up: it yields a handle on buffer c if and only if the format
      and the declared namespace are in order and c is live with that id and generation. Neither the
      record's own namespace nor its exportable flag is consulted, so the handle stays inside the importing
      namespace if and only if the descriptor names the record's namespace. */
  lemma ImportExactly(s: State, d: Descriptor, ns: NamespaceId, c: nat)
    requires Settled(s) && Identified(s.store) && c < |s.store.recs|
    ensures
      var (s', o) := ImportLocal(s, d, ns);
      var r := s.store.recs[c];
      var found := o.Ok? && o.value == |s.tokens| && |s'.tokens| == |s.tokens| + 1 && s'.tokens[o.value].ctl == c;
      && (found <==>
            && Importable(d) && Authorized(s.store.nss, d, ns) && d.local
            && Live(s.store, c) && r.id == d.id && r.generation == d.generation)
      && (found ==> s'.tokens[o.value] == Token(HandleToken, c, d.generation, true) && Alive(s', o.value) == Ok(c))
      && (found ==> (r.ns == ns <==> d.ns == r.ns))
  {
    ImportAllowedExactly(s.store, d, ns);
    LookupExact(s.store, c, d.generation);
    assert ControlOk(s.ctls[c], s.store.recs[c].finalized);
    if Lookup(s.store, d.id, d.generation).Ok? {
      FoundById(s.store, d.id, d.generation);
    }
  }

  lemma FoundById(st: Store, id: BufferId, generation: nat)
    requires Identified(st) && Lookup(st, id, generation).Ok?
    ensures
      var c := Lookup(st, id, generation).value;
      Live(st, c) && st.recs[c].id == id && st.recs[c].generation == generation
  {
  }

  /** Cross-namespace import is not always refused: with a descriptor that declares it any namespace that may import
      obtains a working handle on any live buffer, exportable or not. */
  lemma MisdeclaredImport(s: State, c: nat, ns: NamespaceId)
    requires Coherent(s) && Live(s.store, c) && s.store.recs[c].ns != ns
    requires ns in s.store.nss && s.store.nss[ns].allowImport
    ensures
      var d := Descriptor(FORMAT_VERSION, s.store.recs[c].id, s.store.recs[c].generation, ns, HOST, 1, 0, true);
      var (s', o) := ImportLocal(s, d, ns);
      LocalDomain(d.domain) && o.Ok? && Alive(s', o.value) == Ok(c) && s'.store.recs[c].ns != ns
  {
    ImportExactly(s, Descriptor(FORMAT_VERSION, s.store.recs[c].id, s.store.recs[c].generation, ns, HOST, 1, 0, true), ns, c);
  }

  /** Round trip: a descriptor imports, at any later time, if and only if the namespace is authorized and
      the exported buffer is still live in the same generation; and then the new handle is on that very
      buffer. An identifier never comes to mean another buffer. */
  lemma ExportImport(s: State, h: nat, ops: seq<Op>, ns: NamespaceId)
    requires Coherent(s) && ExportLocal(s, h).Ok?
    ensures
      var d, c, s' := ExportLocal(s, h).value, s.tokens[h].ctl, StepAll(s, ops);
      var (s'', o) := ImportLocal(s', d, ns);
      && (o.Ok? <==>
            Authorized(s'.store.nss, d, ns) && Live(s'.store, c)
            && s'.store.recs[c].generation == s.store.recs[c].generation)
      && (o.Ok? ==> o.value == |s'.tokens| && |s''.tokens| == |s'.tokens| + 1
                    && s''.tokens[o.value] == Token(HandleToken, c, d.generation, true) && Alive(s'', o.value) == Ok(c))
  {
    var c := s.tokens[h].ctl;
    AliveMeans(s, h);
    RunFrom(s, ops);
    GenerationCounts(s, ops, c);
    assert Importable(DescriptorOf(s.store.recs[c])) by {
      assert Shaped(s.store.cfg, s.store.recs[c]);
    }
    var s' := StepAll(s, ops);
    ImportExactly(s', DescriptorOf(s.store.recs[c]), ns, c);
    if ImportLocal(s', DescriptorOf(s.store.recs[c]), ns).1.Ok? {
      OnlyThatOne(s', DescriptorOf(s.store.recs[c]), ns, c);
    }
  }

  /** An import that succeeds is on the buffer of that id. */
  lemma OnlyThatOne(s: State, d: Descriptor, ns: NamespaceId, c: nat)
    requires Identified(s.store) && c < |s.store.recs| && s.store.recs[c].id == d.id && ImportLocal(s, d, ns).1.Ok?
    ensures
      var (s', o) := ImportLocal(s, d, ns);
      o.value == |s.tokens| && |s'.tokens| == |s.tokens| + 1 && s'.tokens[o.value].ctl == c
  {
    LookupExact(s.store, c, d.generation);
  }
}
