/**
 The settings store: a RAM image, the flash behind it, saves that commit at once and saves that wait for a
 flush. The operations as functions of the state, their durability laws, and the store itself.
 */
module EepromStore {
  import opened Basics
  import opened MeshTypes
  import opened Crc16
  import opened EepromImage
  import opened EepromMigration

  const FLUSH_INTERVAL_MS: nat := 5000

  datatype StoreState = StoreState(ready: bool, dev: bool, image: Image, flash: Image, dirty: bool, lastFlush: uint32)

  datatype Op =
    | Save(setting: Setting)
    | ClearPeerList
    | ClearAll
    | ClearRange(lo: uint16, hi: uint16)
    | FlushIfDirty(now: uint32)
    | ForceFlush(now: uint32)
    | SetDevMode(on: bool)

  /** What can be saved: anything but the schema version, and keys only as a pair. */
  predicate Savable(s: Setting) {
    !s.Schema? && (s.Keypair? ==> s.keys.Some?)
  }

  predicate Allowed(op: Op) { op.Save? ==> Savable(op.setting) }

  /** Settings too precious to wait for the next flush. */
  predicate Immediate(s: Setting) {
    s.Keypair? || s.Enrolled? || s.BootEpoch? || s.KnownMaster? || s.Secondary? || s.TxPower?
  }

  function Blank(n: nat): (b: seq<byte>)
    ensures |b| == n
  {
    Fill(n, 0xFF)
  }

  function Committed(st: StoreState, image: Image): StoreState { st.(image := image, flash := image) }

  function Deferred(st: StoreState, image: Image): StoreState { st.(image := image, dirty := true) }

  function Flushed(st: StoreState, now: uint32): StoreState { st.(flash := st.image, dirty := false, lastFlush := now) }

  /** In development mode nothing is saved but the node id; clearing works in every mode. */
  function Apply(st: StoreState, op: Op): StoreState
    requires Allowed(op)
  {
    match op
    case Save(s) =>
      if !st.ready || (st.dev && !s.NodeId?) then st
      else if Immediate(s) then Committed(st, Put(st.image, FieldOf(s), Encode(s)))
      else Deferred(st, Put(st.image, FieldOf(s), Encode(s)))
    case ClearPeerList =>
      if !st.ready then st else Deferred(st, Put(st.image, PeerListField, Blank(PEER_LIST_SIZE)))
    case ClearAll => if !st.ready then st else Committed(st, Fill(512, 0xFF))
    case ClearRange(lo, hi) =>
      if !st.ready || lo >= 512 || hi >= 512 || lo > hi then st
      else Committed(st, WriteAt(st.image, lo, Blank(hi - lo + 1)))
    case FlushIfDirty(now) =>
      if !st.dirty || (now - st.lastFlush) % TWO_32 < FLUSH_INTERVAL_MS then st else Flushed(st, now)
    case ForceFlush(now) => if !st.dirty then st else Flushed(st, now)
    case SetDevMode(on) => st.(dev := on)
  }

  /** The power goes and comes back, and the store is initialised. */
  function Restarted(st: StoreState): StoreState {
    StoreState(true, false, Boot(st.flash), Boot(st.flash), false, 0)
  }

  // ---------- Loads and saves ----------

  /** In production mode every save is seen by its own load, exactly when it is not one of the erased values,
      and by no other. */
  lemma SaveIsSeen(st: StoreState, s: Setting, g: Field)
    requires st.ready && !st.dev && Savable(s)
    ensures var after := Apply(st, Save(s)).image;
            if g == FieldOf(s) then Load(after, g) == s <==> !Sentinel(s) else Load(after, g) == Load(st.image, g)
  {
    SaveThenLoad(st.image, s, g);
  }

  // ---------- Durability ----------

  /** RAM and flash differ only while the store knows it, and the image is of the current version or blank there. */
  predicate Coherent(st: StoreState) {
    && (st.image != st.flash ==> st.dirty)
    && (st.ready ==> st.image[494] in {3, 0xFF})
  }

  lemma RestartCoherent(st: StoreState)
    ensures Coherent(Restarted(st))
  {
    BootIsStable(st.flash);
    var b := Boot(st.flash);
    assert Region(b, SchemaField) == [b[494]];
  }

  lemma PutKeepsSchema(img: Image, f: Field, b: seq<byte>)
    requires f != SchemaField && |b| == Size(f)
    ensures Put(img, f, b)[494] == img[494]
  {
    Apart(f, SchemaField);
  }

  lemma StepKeepsCoherent(st: StoreState, op: Op)
    requires Coherent(st) && Allowed(op)
    ensures Coherent(Apply(st, op))
  {
    hide Encode, Put;
    match op
    case Save(s) => PutKeepsSchema(st.image, FieldOf(s), Encode(s));
    case ClearPeerList => PutKeepsSchema(st.image, PeerListField, Blank(PEER_LIST_SIZE));
    case _ =>
  }

  /** A step either leaves flash alone or makes it the new image. */
  lemma FlashFollows(st: StoreState, op: Op)
    requires Allowed(op)
    ensures Apply(st, op).flash == st.flash || Apply(st, op).flash == Apply(st, op).image
  {
    hide Encode, Put;
  }

  ghost predicate IsRun(states: seq<StoreState>, ops: seq<Op>) {
    && |states| == |ops| + 1
    && forall i | 0 <= i < |ops| :: Allowed(ops[i]) && states[i + 1] == Apply(states[i], ops[i])
  }

  /** At every moment flash holds an image the store once had, so operations never show half done. That a commit
      itself is all or nothing is assumed of the flash library, and part of `Committed` and `Flushed`. */
  lemma {:induction false} FlashIsSomeImage(states: seq<StoreState>, ops: seq<Op>)
    requires IsRun(states, ops) && states[0].flash == states[0].image
    ensures exists i :: 0 <= i < |states| && states[|ops|].flash == states[i].image
    decreases |ops|
  {
    hide Apply;
    if ops != [] {
      var n := |ops| - 1;
      FlashIsSomeImage(states[..|states| - 1], ops[..n]);
      FlashFollows(states[n], ops[n]);
      var i :| 0 <= i < |states| - 1 && states[n].flash == states[i].image;
    }
  }

  lemma {:induction false} RunKeepsCoherent(states: seq<StoreState>, ops: seq<Op>)
    requires IsRun(states, ops) && Coherent(states[0])
    ensures Coherent(states[|ops|]) && states[|ops|].ready == states[0].ready
    decreases |ops|
  {
    hide Apply, Coherent;
    if ops != [] {
      var n := |ops| - 1;
      RunKeepsCoherent(states[..|states| - 1], ops[..n]);
      StepKeepsCoherent(states[n], ops[n]);
      StaysReady(states[n], ops[n]);
    }
  }

  lemma StaysReady(st: StoreState, op: Op)
    requires Allowed(op)
    ensures Apply(st, op).ready == st.ready
  {
  }

  lemma NotSaved(st: StoreState, s: Setting)
    requires Savable(s) && !s.NodeId? && (!st.ready || st.dev)
    ensures Apply(st, Save(s)) == st
  {
  }

  /** The step leaves nothing to lose. */
  predicate Settles(st: StoreState, op: Op) {
    match op
    case ForceFlush(_) => true
    case FlushIfDirty(now) => (now - st.lastFlush) % TWO_32 >= FLUSH_INTERVAL_MS
    case Save(s) => Immediate(s) && !st.dev
    case ClearAll => true
    case ClearRange(lo, hi) => lo <= hi < 512
    case _ => false
  }

  /** After any run since a boot, a forced flush, a periodic one once five seconds have passed, or any immediate
      save leaves the whole image in flash; a power cut then loses no setting (the reboot bytes are made sane). */
  lemma NothingLost(st0: StoreState, states: seq<StoreState>, ops: seq<Op>, op: Op, f: Field)
    requires IsRun(states, ops) && states[0] == Restarted(st0)
    requires Allowed(op) && Settles(states[|ops|], op)
    ensures var st := Apply(states[|ops|], op);
            && st.flash == st.image
            && (f !in {SchemaField, RebootReasonField, RebootCountField} ==>
                      Load(Restarted(st).image, f) == Load(st.image, f))
  {
    hide Boot, Put, Encode, Load;
    RestartCoherent(st0);
    RunKeepsCoherent(states, ops);
    var st := Apply(states[|ops|], op);
    StepKeepsCoherent(states[|ops|], op);
    StaysReady(states[|ops|], op);
    if f !in {SchemaField, RebootReasonField, RebootCountField} {
      OthersSurvive(st.image, f);
    }
  }

  /** And what has not been flushed is lost: a deferred save followed by a power cut leaves the flash of before. */
  lemma DeferredIsLost(st: StoreState, s: Setting)
    requires Savable(s) && !Immediate(s)
    ensures Restarted(Apply(st, Save(s))) == Restarted(st)
  {
  }

  /** The boot counter: every boot saves one more than it loads, so the next boot loads more than the last;
      only the value all cells of which are erased starts over. */
  lemma EpochsRise(st: StoreState)
    requires st.ready && !st.dev && st.image[494] in {3, 0xFF}
    ensures var e := Load(st.image, BootEpochField).epoch + 1;
            && e < TWO_32
            && Load(Restarted(Apply(st, Save(BootEpoch(e)))).image, BootEpochField)
               == BootEpoch(if e == 0xFFFF_FFFF then 0 else e)
  {
    hide Boot, Put, Encode, Start;
    assert Load(st.image, BootEpochField).epoch < 0xFFFF_FFFF;
    var s := BootEpoch(Load(st.image, BootEpochField).epoch + 1);
    var img := Put(st.image, BootEpochField, Encode(s));
    PutKeepsSchema(st.image, BootEpochField, Encode(s));
    PutRegion(st.image, BootEpochField, Encode(s), BootEpochField);
    EpochLoaded(s.epoch, img);
    OthersSurvive(img, BootEpochField);
  }

  lemma EpochLoaded(e: uint32, img: Image)
    requires Region(img, BootEpochField) == Encode(BootEpoch(e))
    ensures Load(img, BootEpochField) == BootEpoch(if e == 0xFFFF_FFFF then 0 else e)
  {
    EpochRoundTrip(e);
  }

  // ---------- The store ----------

  /** Fields of one byte. */
  lemma PutByte(img: Image, f: Field, b: byte)
    requires Size(f) == 1
    ensures Start(f) < 512 && img[Start(f) := b] == Put(img, f, [b])
  {
    Apart(f, f);
  }

  lemma WriteNext(img: Image, at: nat, b: seq<byte>, i: nat)
    requires at + |b| <= 512 && i < |b|
    ensures WriteAt(img, at, b[..i])[at + i := b[i]] == WriteAt(img, at, b[..i + 1])
  {
  }

  class Store {
    const buffer: array<byte>
    var flash: Image
    var isInitialized: bool
    var isDevMode: bool
    var dirty: bool
    var lastFlushMs: uint32

    ghost predicate Valid()
      reads this
    {
      buffer.Length == 512 && (dirty ==> isInitialized)
    }

    ghost function State(): StoreState
      reads this, buffer
      requires Valid()
    {
      StoreState(isInitialized, isDevMode, if isInitialized then buffer[..] else flash, flash, dirty, lastFlushMs)
    }

    constructor (stored: Image)
      ensures Valid() && fresh(buffer) && flash == stored
      ensures State() == StoreState(false, false, stored, stored, false, 0)
    {
      buffer := new byte[512];
      flash := stored;
      isInitialized, isDevMode, dirty, lastFlushMs := false, false, false, 0;
    }

    // ----- Start -----

    method Begin()
      requires Valid()
      modifies buffer
      ensures buffer[..] == flash
    {
      for i := 0 to 512
        invariant buffer[..i] == flash[..i]
      {
        buffer[i] := flash[i];
      }
    }

    /** Boot: the migration of an old image, in place. The images committed on the way are reported too. */
    method Init() returns (ok: bool, ghost commits: seq<Image>)
      requires Valid()
      modifies this, buffer
      ensures Valid() && ok && isInitialized
      ensures old(isInitialized) ==> State() == old(State()) && commits == []
      ensures !old(isInitialized) ==>
                && commits == Commits(old(flash))
                && State() == old(State()).(ready := true, image := Boot(old(flash)), flash := Boot(old(flash)))
    {
      ok, commits := true, [];
      if isInitialized {
        return;
      }
      Begin();
      isInitialized := true;
      commits := Migrate();
      MakeSane();
      Commit();
      commits := commits + [flash];
    }

    method Migrate() returns (ghost commits: seq<Image>)
      requires Valid() && isInitialized && buffer[..] == flash
      modifies buffer, this`flash
      ensures Valid() && flash == buffer[..] == Migrated(old(flash))
      ensures commits + [Boot(old(flash))] == Commits(old(flash))
    {
      hide FromV0, Sane, Put, WriteAt;
      commits := [];
      var storedVersion := buffer[494];
      if storedVersion == 0xFF {
        WriteByte(SchemaField, CURRENT_SCHEMA_VERSION);
        Commit();
        commits := [flash];
      } else if storedVersion < CURRENT_SCHEMA_VERSION {
        if storedVersion == 0 {
          MigrateV0();
        }
        BlankField(SecondaryField);
        assert Blank(6) == BROADCAST_MAC;
        WriteByte(SchemaField, CURRENT_SCHEMA_VERSION);
        Commit();
        commits := [flash];
      } else if storedVersion > CURRENT_SCHEMA_VERSION {
        ClearAll();
        commits := [flash];
        WriteByte(SchemaField, CURRENT_SCHEMA_VERSION);
        Commit();
        commits := commits + [flash];
      }
    }

    /** Moves the old fields out of what is now the peer list, then blanks it. */
    method MigrateV0()
      requires Valid()
      modifies buffer
      ensures buffer[..] == FromV0(old(buffer[..]))
    {
      hide FromV0;
      ghost var was: Image := buffer[..];
      var oldReason := buffer[V1_REBOOT_REASON];
      var oldCount := buffer[V1_REBOOT_COUNT];
      buffer[412] := if oldReason == 0 then 0xFF else oldReason;
      buffer[413] := if oldCount > 10 then 0 else oldCount;
      CopyKeys();
      buffer[481] := buffer[V1_KEYPAIR_CRC];
      buffer[482] := buffer[V1_KEYPAIR_CRC + 1];
      buffer[483] := buffer[V1_ENROLLED_FLAG];
      BlankOld();
      V0Moved(was, buffer[..]);
    }

    /** First the old fields, then the whole peer list. */
    method BlankOld()
      requires Valid()
      modifies buffer
      ensures forall k | 0 <= k < 512 :: buffer[k] == if 32 <= k < 412 then 0xFF else old(buffer[k])
    {
      ghost var was: Image := buffer[..];
      FillBytes(92, 72);
      ghost var half: Image := buffer[..];
      assert forall k | 0 <= k < 512 :: half[k] == if 92 <= k < 164 then 0xFF else was[k];
      FillBytes(32, PEER_LIST_SIZE);
      ghost var now: Image := buffer[..];
      assert forall k | 0 <= k < 512 :: now[k] == if 32 <= k < 412 then 0xFF else half[k];
    }

    static lemma V0Moved(was: Image, now: Image)
      requires now[412] == SaneReason(was[92]) && now[413] == SaneCount(was[93])
      requires forall k | 0 <= k < 32 || 414 <= k < 417 || 484 <= k < 512 :: now[k] == was[k]
      requires forall k | 32 <= k < 412 :: now[k] == 0xFF
      requires forall k | 417 <= k < 484 :: now[k] == was[k - 320]
      ensures now == FromV0(was)
    {
      FromV0Bytes(was);
      FromV0Rest(was);
    }

    method CopyKeys()
      requires Valid()
      modifies buffer
      ensures forall k | 0 <= k < 512 :: buffer[k] == if 417 <= k < 481 then old(buffer[k - 320]) else old(buffer[k])
    {
      for i := 0 to 32
        invariant forall k | 0 <= k < 512 ::
                    buffer[k] == if 417 <= k < 417 + i || 449 <= k < 449 + i then old(buffer[k - 320])
                        else old(buffer[k])
      {
        buffer[417 + i] := buffer[V1_PRIVATE_KEY + i];
        buffer[449 + i] := buffer[V1_PUBLIC_KEY + i];
      }
    }

    static lemma FromV0Rest(img: Image)
      ensures FromV0(img)[412] == SaneReason(img[92]) && FromV0(img)[413] == SaneCount(img[93])
      ensures forall k | 414 <= k < 417 :: FromV0(img)[k] == img[k]
    {
    }

    method MakeSane()
      requires Valid()
      modifies buffer
      ensures buffer[..] == Sane(old(buffer[..]))
    {
      if buffer[412] == 0 {
        buffer[412] := 0xFF;
      }
      if buffer[413] > 10 {
        buffer[413] := 0;
      }
    }

    // ----- Helpers on the buffer -----

    method WriteBytes(at: nat, b: seq<byte>)
      requires Valid() && at + |b| <= 512
      modifies buffer
      ensures buffer[..] == WriteAt(old(buffer[..]), at, b)
    {
      hide WriteAt;
      ghost var was: Image := buffer[..];
      WriteNone(was, at);
      for i := 0 to |b|
        invariant buffer[..] == WriteAt(was, at, b[..i])
      {
        WriteNext(was, at, b, i);
        buffer[at + i] := b[i];
      }
      assert b[..|b|] == b;
    }

    static lemma WriteNone(img: Image, at: nat)
      requires at <= 512
      ensures forall b: seq<byte> :: WriteAt(img, at, b[..0]) == img
    {
    }

    method FillBytes(at: nat, n: nat)
      requires Valid() && at + n <= 512
      modifies buffer
      ensures buffer[..] == WriteAt(old(buffer[..]), at, Blank(n))
    {
      hide WriteAt;
      ghost var was: Image := buffer[..];
      WriteNone(was, at);
      for i := 0 to n
        invariant buffer[..] == WriteAt(was, at, Blank(n)[..i])
      {
        WriteNext(was, at, Blank(n), i);
        buffer[at + i] := 0xFF;
      }
      assert Blank(n)[..n] == Blank(n);
    }

    method ReadBytes(at: nat, n: nat) returns (b: seq<byte>)
      requires Valid() && at + n <= 512
      ensures b == buffer[at..at + n]
    {
      b := [];
      for i := 0 to n
        invariant b == buffer[at..at + i]
      {
        b := b + [buffer[at + i]];
      }
    }

    // ----- Helpers on fields -----

    method WriteField(f: Field, b: seq<byte>)
      requires Valid() && |b| == Size(f)
      modifies buffer
      ensures buffer[..] == Put(old(buffer[..]), f, b)
    {
      hide WriteAt, Start, Size;
      Apart(f, f);
      WriteBytes(Start(f), b);
    }

    method BlankField(f: Field)
      requires Valid()
      modifies buffer
      ensures buffer[..] == Put(old(buffer[..]), f, Blank(Size(f)))
    {
      hide WriteAt, Start, Size;
      Apart(f, f);
      FillBytes(Start(f), Size(f));
    }

    method WriteByte(f: Field, b: byte)
      requires Valid() && Size(f) == 1
      modifies buffer
      ensures buffer[..] == Put(old(buffer[..]), f, [b])
    {
      hide Put, Start, Size;
      PutByte(buffer[..], f, b);
      buffer[Start(f)] := b;
    }

    method ReadField(f: Field) returns (b: seq<byte>)
      requires Valid()
      ensures b == Region(buffer[..], f)
    {
      hide Start, Size;
      Apart(f, f);
      b := ReadBytes(Start(f), Size(f));
    }

    method ReadByte(f: Field) returns (b: byte)
      requires Valid() && Size(f) == 1
      ensures Region(buffer[..], f) == [b]
    {
      hide Start, Size;
      Apart(f, f);
      b := buffer[Start(f)];
    }

    method Commit()
      requires Valid()
      modifies this`flash
      ensures flash == buffer[..]
    {
      flash := buffer[..];
    }

    method MarkDirty()
      requires isInitialized
      modifies this`dirty
      ensures dirty
    {
      dirty := true;
    }

    // ----- Flushing -----

    method FlushIfDirty(millis: uint32)
      requires Valid()
      modifies this
      ensures Valid() && State() == Apply(old(State()), Op.FlushIfDirty(millis)) && buffer[..] == old(buffer[..])
    {
      if !dirty {
        return;
      }
      if (millis - lastFlushMs) % TWO_32 < FLUSH_INTERVAL_MS {
        return;
      }
      Commit();
      dirty := false;
      lastFlushMs := millis;
    }

    method ForceFlush(millis: uint32)
      requires Valid()
      modifies this
      ensures Valid() && State() == Apply(old(State()), Op.ForceFlush(millis)) && buffer[..] == old(buffer[..])
    {
      if !dirty {
        return;
      }
      Commit();
      dirty := false;
      lastFlushMs := millis;
    }

    method SetDevMode(on: bool)
      requires Valid()
      modifies this`isDevMode
      ensures Valid() && State() == Apply(old(State()), Op.SetDevMode(on))
    {
      isDevMode := on;
    }

    // ----- Saves -----

    method SaveMasterFlag(isMaster: bool)
      requires Valid()
      modifies this, buffer
      ensures Valid() && State() == Apply(old(State()), Save(MasterFlag(isMaster)))
    {
      hide Put;
      if !isInitialized || isDevMode {
        return;
      }
      WriteByte(MasterFlagField, if isMaster then 1 else 0);
      MarkDirty();
    }

    method SaveDevFlag(isDev: bool)
      requires Valid()
      modifies this, buffer
      ensures Valid() && State() == Apply(old(State()), Save(DevFlag(isDev)))
    {
      hide Put;
      if !isInitialized || isDevMode {
        return;
      }
      WriteByte(DevFlagField, if isDev then 1 else 0);
      MarkDirty();
    }

    /** A key of the wrong size is refused. */
    method SaveMeshKey(key: seq<byte>)
      requires Valid()
      modifies this, buffer
      ensures Valid() && State() == if |key| == 16 then Apply(old(State()), Save(MeshKey(key))) else old(State())
    {
      hide Put;
      if !isInitialized || |key| != 16 || isDevMode {
        return;
      }
      WriteField(MeshKeyField, key);
      MarkDirty();
    }

    /** The list is blanked and the records written over it, with no commit in between. */
    method SavePeerList(records: seq<byte>, numPeers: nat)
      requires Valid()
      requires isInitialized && !isDevMode && numPeers <= MAX_PEERS ==> |records| >= PEER_RECORD_SIZE * numPeers
      modifies this, buffer
      ensures Valid()
      ensures State() == if !old(isInitialized) || old(isDevMode) || numPeers > MAX_PEERS then old(State())
                         else Apply(old(State()), Save(PeerList(Padded(records, numPeers))))
    {
      hide Put, Padded;
      if !isInitialized || numPeers > MAX_PEERS || isDevMode {
        return;
      }
      WritePeers(records, numPeers);
      MarkDirty();
    }

    method WritePeers(records: seq<byte>, n: nat)
      requires Valid() && n <= MAX_PEERS && |records| >= PEER_RECORD_SIZE * n
      modifies buffer
      ensures buffer[..] == Put(old(buffer[..]), PeerListField, Padded(records, n))
    {
      hide WriteAt, Put, Padded;
      ghost var was: Image := buffer[..];
      FillBytes(32, PEER_LIST_SIZE);
      WriteBytes(32, records[..PEER_RECORD_SIZE * n]);
      PaddedPut(was, records, n);
    }

    /** The first records, with blank ones after them. */
    static function Padded(records: seq<byte>, n: nat): PeerRecords
      requires n <= MAX_PEERS && |records| >= PEER_RECORD_SIZE * n
    {
      records[..PEER_RECORD_SIZE * n] + Blank(PEER_LIST_SIZE - PEER_RECORD_SIZE * n)
    }

    static lemma PaddedPut(img: Image, records: seq<byte>, n: nat)
      requires n <= MAX_PEERS && |records| >= PEER_RECORD_SIZE * n
      ensures WriteAt(WriteAt(img, 32, Blank(PEER_LIST_SIZE)), 32, records[..PEER_RECORD_SIZE * n])
              == Put(img, PeerListField, Padded(records, n))
    {
    }

    method ClearPeerList()
      requires Valid()
      modifies this, buffer
      ensures Valid() && State() == Apply(old(State()), Op.ClearPeerList)
    {
      hide Put;
      if !isInitialized {
        return;
      }
      BlankField(PeerListField);
      MarkDirty();
    }

    method SaveAdapterType(adapterType: byte)
      requires Valid()
      modifies this, buffer
      ensures Valid() && State() == Apply(old(State()), Save(AdapterType(adapterType)))
    {
      hide Put;
      if !isInitialized || isDevMode {
        return;
      }
      WriteByte(AdapterTypeField, adapterType);
      MarkDirty();
    }

    method SaveRebootCount(count: byte)
      requires Valid()
      modifies this, buffer
      ensures Valid() && State() == Apply(old(State()), Save(RebootCount(count)))
    {
      hide Put;
      if !isInitialized || isDevMode {
        return;
      }
      WriteByte(RebootCountField, count);
      MarkDirty();
    }

    method SaveRebootReason(reason: byte)
      requires Valid()
      modifies this, buffer
      ensures Valid() && State() == Apply(old(State()), Save(RebootReason(reason)))
    {
      hide Put;
      if !isInitialized || isDevMode {
        return;
      }
      WriteByte(RebootReasonField, reason);
      MarkDirty();
    }

    method SaveEnrolledFlag(enrolled: bool)
      requires Valid()
      modifies this, buffer
      ensures Valid() && State() == Apply(old(State()), Save(Enrolled(enrolled)))
    {
      hide Put;
      if !isInitialized || isDevMode {
        return;
      }
      WriteByte(EnrolledField, if enrolled then 1 else 0xFF);
      Commit();
    }

    method SaveTxPowerPreset(preset: byte)
      requires Valid()
      modifies this, buffer
      ensures Valid() && State() == Apply(old(State()), Save(TxPower(preset)))
    {
      hide Put;
      if !isInitialized || isDevMode {
        return;
      }
      WriteByte(TxPowerField, preset);
      Commit();
    }

    /** Saved even in development mode. */
    method SaveNodeId(nodeId: byte)
      requires Valid()
      modifies this, buffer
      ensures Valid() && State() == Apply(old(State()), Save(NodeId(nodeId)))
    {
      hide Put;
      if !isInitialized {
        return;
      }
      WriteByte(NodeIdField, nodeId);
      MarkDirty();
    }

    method SaveKeypair(privateKey: Bytes32, publicKey: Bytes32)
      requires Valid()
      modifies this, buffer
      ensures Valid() && State() == Apply(old(State()), Save(Keypair(Some((privateKey, publicKey)))))
    {
      if !isInitialized || isDevMode {
        return;
      }
      hide Put, KeyRecord;
      WriteKeypair(privateKey, publicKey);
      Commit();
    }

    method WriteKeypair(privateKey: Bytes32, publicKey: Bytes32)
      requires Valid()
      modifies buffer
      ensures buffer[..] == Put(old(buffer[..]), KeypairField, KeyRecord(privateKey, publicKey))
    {
      hide Put, KeyRecord, Checksum;
      ghost var was: Image := buffer[..];
      WriteKeys(privateKey, publicKey);
      var crc := ComputeCrc(privateKey + publicKey);
      buffer[481] := crc % 0x100;
      buffer[482] := crc / 0x100;
      KeysWritten(was, buffer[..], privateKey, publicKey);
    }

    method WriteKeys(privateKey: Bytes32, publicKey: Bytes32)
      requires Valid()
      modifies buffer
      ensures forall k | 0 <= k < 512 :: buffer[k] ==
                if 417 <= k < 449 then privateKey[k - 417] else if 449 <= k < 481 then publicKey[k - 449]
                    else old(buffer[k])
    {
      for i := 0 to 32
        invariant forall k | 0 <= k < 512 :: buffer[k] ==
                    if 417 <= k < 417 + i then privateKey[k - 417]
                    else if 449 <= k < 449 + i then publicKey[k - 449] else old(buffer[k])
      {
        buffer[417 + i] := privateKey[i];
        buffer[449 + i] := publicKey[i];
      }
    }

    static lemma KeysWritten(was: Image, now: Image, p: Bytes32, q: Bytes32)
      requires forall k | 0 <= k < 512 :: now[k] ==
                 if 417 <= k < 449 then p[k - 417] else if 449 <= k < 481 then q[k - 449]
                 else if k == 481 then Checksum(p + q) % 0x100 else if k == 482 then Checksum(p + q) / 0x100 else was[k]
      ensures now == Put(was, KeypairField, KeyRecord(p, q))
    {
      hide Checksum;
    }

    method SaveBootEpoch(epoch: uint32)
      requires Valid()
      modifies this, buffer
      ensures Valid() && State() == Apply(old(State()), Save(BootEpoch(epoch)))
    {
      hide Put, EpochBytes;
      if !isInitialized || isDevMode {
        return;
      }
      WriteField(BootEpochField, EpochBytes(epoch));
      Commit();
    }

    /** The address of the master is what the mesh trusts, so it is committed at once. */
    method SaveKnownMasterMac(mac: Mac)
      requires Valid()
      modifies this, buffer
      ensures Valid() && State() == Apply(old(State()), Save(KnownMaster(Some(mac))))
    {
      hide Put;
      if !isInitialized || isDevMode {
        return;
      }
      WriteField(KnownMasterField, mac);
      Commit();
    }

    method ClearKnownMasterMac()
      requires Valid()
      modifies this, buffer
      ensures Valid() && State() == Apply(old(State()), Save(KnownMaster(None)))
    {
      hide Put;
      if !isInitialized || isDevMode {
        return;
      }
      BlankField(KnownMasterField);
      assert Blank(6) == BROADCAST_MAC;
      Commit();
    }

    method SaveKnownMasterMacSecondary(mac: Mac)
      requires Valid()
      modifies this, buffer
      ensures Valid() && State() == Apply(old(State()), Save(Secondary(Some(mac))))
    {
      hide Put;
      if !isInitialized || isDevMode {
        return;
      }
      WriteField(SecondaryField, mac);
      Commit();
    }

    method ClearKnownMasterMacSecondary()
      requires Valid()
      modifies this, buffer
      ensures Valid() && State() == Apply(old(State()), Save(Secondary(None)))
    {
      hide Put;
      if !isInitialized || isDevMode {
        return;
      }
      BlankField(SecondaryField);
      assert Blank(6) == BROADCAST_MAC;
      Commit();
    }

    method ClearAll()
      requires Valid()
      modifies this`flash, buffer
      ensures Valid() && State() == Apply(old(State()), Op.ClearAll)
    {
      if !isInitialized {
        return;
      }
      FillBytes(0, 512);
      assert buffer[..] == Fill(512, 0xFF);
      Commit();
    }

    method ClearRange(lo: uint16, hi: uint16)
      requires Valid()
      modifies this, buffer
      ensures Valid() && State() == Apply(old(State()), Op.ClearRange(lo, hi))
    {
      if !isInitialized || lo >= 512 || hi >= 512 || lo > hi {
        return;
      }
      FillBytes(lo, hi - lo + 1);
      Commit();
    }

    // ----- Loads -----

    method LoadMasterFlag() returns (isMaster: bool)
      requires Valid()
      ensures isMaster == (isInitialized && Load(State().image, MasterFlagField).isMaster)
    {
      hide Region;
      if !isInitialized {
        return false;
      }
      var flag := ReadByte(MasterFlagField);
      isMaster := flag == 1;
    }

    method LoadDevFlag() returns (isDev: bool)
      requires Valid()
      ensures isDev == (isInitialized && Load(State().image, DevFlagField).isDev)
    {
      hide Region;
      if !isInitialized {
        return false;
      }
      var flag := ReadByte(DevFlagField);
      isDev := flag == 1;
    }

    method LoadMeshKey(keySize: nat) returns (key: Option<Key16>)
      requires Valid()
      ensures key == if isInitialized && keySize == 16 then Some(Load(State().image, MeshKeyField).meshKey) else None
    {
      hide Region;
      if !isInitialized || keySize != 16 {
        return None;
      }
      var k := ReadField(MeshKeyField);
      key := Some(k);
    }

    method LoadPeerList(maxPeers: nat) returns (records: Option<seq<byte>>)
      requires Valid()
      ensures records == if isInitialized && maxPeers <= MAX_PEERS
                         then Some(Load(State().image, PeerListField).records[..PEER_RECORD_SIZE * maxPeers]) else None
    {
      if !isInitialized || maxPeers > MAX_PEERS {
        return None;
      }
      var r := ReadBytes(32, PEER_RECORD_SIZE * maxPeers);
      assert r == Region(buffer[..], PeerListField)[..PEER_RECORD_SIZE * maxPeers];
      records := Some(r);
    }

    method HasPeers() returns (has: bool)
      requires Valid()
      ensures has == (isInitialized && Load(State().image, PeerListField).records != Blank(PEER_LIST_SIZE))
    {
      if !isInitialized {
        return false;
      }
      for i := 0 to PEER_LIST_SIZE
        invariant buffer[32..32 + i] == Blank(PEER_LIST_SIZE)[..i]
      {
        if buffer[32 + i] != 0xFF {
          assert Region(buffer[..], PeerListField)[i] != 0xFF;
          return true;
        }
      }
      return false;
    }

    method LoadAdapterType() returns (adapterType: byte)
      requires Valid()
      ensures adapterType == if isInitialized then Load(State().image, AdapterTypeField).adapterType else 0xFF
    {
      hide Region;
      if !isInitialized {
        return 0xFF;
      }
      adapterType := ReadByte(AdapterTypeField);
      if adapterType == 0xFF {
        adapterType := 0;
      }
    }

    method LoadRebootCount() returns (count: byte)
      requires Valid()
      ensures count == if isInitialized then Load(State().image, RebootCountField).count else 0
    {
      hide Region;
      if !isInitialized {
        return 0;
      }
      count := ReadByte(RebootCountField);
    }

    method LoadRebootReason() returns (reason: byte)
      requires Valid()
      ensures reason == if isInitialized then Load(State().image, RebootReasonField).reason else 0xFF
    {
      hide Region;
      if !isInitialized {
        return 0xFF;
      }
      reason := ReadByte(RebootReasonField);
    }

    /** The stored pair, unless the checksum says it is unset or damaged. */
    method LoadKeypair() returns (keys: Option<(Bytes32, Bytes32)>)
      requires Valid()
      ensures keys == if isInitialized then Load(State().image, KeypairField).keys else None
    {
      if !isInitialized {
        return None;
      }
      hide Checksum;
      var privateKey := ReadBytes(417, 32);
      var publicKey := ReadBytes(449, 32);
      var stored := Word(buffer[481], buffer[482]);
      var computed := ComputeCrc(privateKey + publicKey);
      KeysRead(buffer[..], privateKey, publicKey);
      keys := if stored != computed then None else Some((privateKey, publicKey));
    }

    static lemma KeysRead(img: Image, p: Bytes32, q: Bytes32)
      requires p == img[417..449] && q == img[449..481]
      ensures KeysIn(Region(img, KeypairField)) == if Word(img[481], img[482]) == Checksum(p + q)
              then Some((p, q)) else None
    {
      hide Checksum;
      var b := Region(img, KeypairField);
      assert b[..32] == p && b[32..64] == q && b[..64] == p + q;
    }

    static function Word(low: byte, high: byte): nat { low + 0x100 * (high as int) }

    method LoadEnrolledFlag() returns (enrolled: bool)
      requires Valid()
      ensures enrolled == (isInitialized && Load(State().image, EnrolledField).enrolled)
    {
      hide Region;
      if !isInitialized {
        return false;
      }
      var flag := ReadByte(EnrolledField);
      enrolled := flag == 1;
    }

    method LoadBootEpoch() returns (epoch: uint32)
      requires Valid()
      ensures epoch == if isInitialized then Load(State().image, BootEpochField).epoch else 0
    {
      hide Region, LittleEndian32;
      if !isInitialized {
        return 0;
      }
      var b := ReadField(BootEpochField);
      var raw := LittleEndian32(b);
      epoch := if raw == 0xFFFF_FFFF then 0 else raw;
    }

    method LoadMac(f: Field) returns (mac: Option<Mac>)
      requires Valid() && Size(f) == 6
      ensures mac == MacIn(Region(buffer[..], f))
    {
      hide Region;
      var m := ReadField(f);
      var allFF := true;
      for i := 0 to 6
        invariant allFF <==> forall j | 0 <= j < i :: m[j] == 0xFF
      {
        if m[i] != 0xFF {
          allFF := false;
        }
      }
      assert allFF ==> m == BROADCAST_MAC;
      mac := if allFF then None else Some(m);
    }

    method LoadKnownMasterMac() returns (mac: Option<Mac>)
      requires Valid()
      ensures mac == if isInitialized then Load(State().image, KnownMasterField).mac else None
    {
      hide Region;
      if !isInitialized {
        return None;
      }
      mac := LoadMac(KnownMasterField);
    }

    method LoadKnownMasterMacSecondary() returns (mac: Option<Mac>)
      requires Valid()
      ensures mac == if isInitialized then Load(State().image, SecondaryField).mac else None
    {
      hide Region;
      if !isInitialized {
        return None;
      }
      mac := LoadMac(SecondaryField);
    }

    method LoadTxPowerPreset() returns (preset: byte)
      requires Valid()
      ensures preset == if isInitialized then Load(State().image, TxPowerField).preset else OUTDOOR
    {
      hide Region;
      if !isInitialized {
        return OUTDOOR;
      }
      preset := ReadByte(TxPowerField);
      if preset > 2 {
        preset := OUTDOOR;
      }
    }

    method LoadNodeId() returns (nodeId: byte)
      requires Valid()
      ensures nodeId == if isInitialized then Load(State().image, NodeIdField).nodeId else 0
    {
      hide Region;
      if !isInitialized {
        return 0;
      }
      nodeId := ReadByte(NodeIdField);
      if nodeId == 0xFF {
        nodeId := 0;
      }
    }
  }
}
