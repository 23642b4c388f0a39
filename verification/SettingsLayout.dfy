/**
 The settings in the bytes of the image: what every byte is after boot, where each save puts what, what each load
 makes of it, and which operations reach flash, all at the addresses of the header.
 */
module SettingsLayout {
  import opened Basics
  import opened MeshTypes
  import opened Crc16
  import opened EepromImage
  import opened EepromMigration
  import opened EepromStore

  // ---------- Boot ----------

  /** Every byte of the image after boot. Version 0 had reason, count, keys, checksum and flag at 92, 93 and 97 to
      163; versions below 3 had no second master; a version above 3 is erased. */
  lemma BootedBytes(img: Image, k: nat)
    requires k < 512
    ensures var v := img[494];
            var erased := 3 < v < 0xFF;
            var reason := if v == 0 then img[92] else if erased then 0xFF else img[412];
            var count := if v == 0 then img[93] else if erased then 0xFF else img[413];
            Boot(img)[k]
            == if k == 494 then 3
               else if k == 412 then (if reason == 0 then 0xFF else reason)
               else if k == 413 then (if count > 10 then 0 else count)
               else if erased then 0xFF
               else if v < 3 && 497 <= k < 503 then 0xFF
               else if v == 0 && 32 <= k < 412 then 0xFF
               else if v == 0 && 417 <= k < 484 then img[k - 320]
               else img[k]
  {
    hide FromV0, Migrated;
    MigratedBytes(img, 412);
    MigratedBytes(img, 413);
    MigratedBytes(img, k);
    var m := Migrated(img);
    if img[494] == 0 {
      V0Image(img, 412);
      V0Image(img, 413);
      V0Image(img, k);
      assert m[412] == FromV0(img)[412] && m[413] == FromV0(img)[413];
    }
  }

  lemma V0Image(img: Image, k: nat)
    requires k < 512
    ensures FromV0(img)[k]
            == if k == 412 then (if img[92] == 0 then 0xFF else img[92])
               else if k == 413 then (if img[93] > 10 then 0 else img[93])
               else if 32 <= k < 412 then 0xFF
               else if 417 <= k < 484 then img[k - 320]
               else img[k]
  {
    hide FromV0;
    FromV0Bytes(img);
    Store.FromV0Rest(img);
  }

  lemma MigratedBytes(img: Image, k: nat)
    requires k < 512
    ensures var v := img[494];
            Migrated(img)[k]
            == if k == 494 then 3
               else if 3 < v < 0xFF then 0xFF
               else if v < 3 && 497 <= k < 503 then 0xFF
               else if v == 0 then FromV0(img)[k] else img[k]
  {
    hide FromV0;
  }

  /** The reboot bytes come through: from versions 1 to 3 and a blank version byte where they are, from version 0
      where they were, a count of at most ten and a reason other than 0 exactly. */
  lemma RebootBytesSurvive(img: Image)
    requires img[494] <= 3 || img[494] == 0xFF
    ensures var was := if img[494] == 0 then (img[92], img[93]) else (img[412], img[413]);
            && (was.0 != 0 ==> Load(Boot(img), RebootReasonField) == RebootReason(was.0))
            && (was.0 == 0 ==> Load(Boot(img), RebootReasonField) == RebootReason(0xFF))
            && (was.1 <= 10 ==> Load(Boot(img), RebootCountField) == RebootCount(was.1))
            && (was.1 > 10 ==> Load(Boot(img), RebootCountField) == RebootCount(0))
            && (img[494] != 0 ==> Load(img, RebootReasonField) == RebootReason(was.0)
                                  && Load(img, RebootCountField) == RebootCount(was.1))
  {
    hide Boot;
    BootedBytes(img, 412);
    BootedBytes(img, 413);
    OneByte(Boot(img), img);
  }

  lemma OneByte(a: Image, b: Image)
    ensures Load(a, RebootReasonField) == RebootReason(a[412]) && Load(a, RebootCountField) == RebootCount(a[413])
    ensures Load(b, RebootReasonField) == RebootReason(b[412]) && Load(b, RebootCountField) == RebootCount(b[413])
  {
  }

  // ---------- Saves ----------

  /** `after` is `img` with the bytes `b` at an address. */
  predicate Holds(after: Image, img: Image, at: nat, b: seq<byte>)
    requires at + |b| <= 512
  {
    forall k | 0 <= k < 512 :: after[k] == if at <= k < at + |b| then b[k - at] else img[k]
  }

  /** The image after a save. Flags are 1 or 0, the enrolled flag 1 or 0xFF; a cleared master is all 0xFF; the epoch
      and the checksum of the keys go low byte first. */
  lemma SavedBytes(img: Image, s: Setting)
    requires s.Keypair? ==> s.keys.Some?
    ensures var after := Put(img, FieldOf(s), Encode(s));
            match s
            case MasterFlag(on) => Holds(after, img, 0, [if on then 1 else 0])
            case DevFlag(on) => Holds(after, img, 1, [if on then 1 else 0])
            case AdapterType(x) => Holds(after, img, 8, [x])
            case MeshKey(k) => Holds(after, img, 16, k)
            case PeerList(r) => Holds(after, img, 32, r)
            case RebootReason(x) => Holds(after, img, 412, [x])
            case RebootCount(x) => Holds(after, img, 413, [x])
            case Keypair(p) =>
              && Holds(after, img, 417, p.value.0 + p.value.1 + [after[481], after[482]])
              && after[481] as int + 0x100 * after[482] as int == Checksum(p.value.0 + p.value.1)
            case Enrolled(on) => Holds(after, img, 483, [if on then 1 else 0xFF])
            case BootEpoch(e) =>
              && Holds(after, img, 484, [after[484], after[485], after[486], after[487]])
              && after[484] as int + 0x100 * after[485] as int + 0x1_0000 * after[486] as int
                 + 0x100_0000 * after[487] as int == e
            case KnownMaster(m) =>
              Holds(after, img, 488, if m.Some? then m.value else [0xFF, 0xFF, 0xFF, 0xFF, 0xFF, 0xFF])
            case Schema(v) => Holds(after, img, 494, [v])
            case TxPower(p) => Holds(after, img, 495, [p])
            case NodeId(x) => Holds(after, img, 496, [x])
            case Secondary(m) =>
              Holds(after, img, 497, if m.Some? then m.value else [0xFF, 0xFF, 0xFF, 0xFF, 0xFF, 0xFF])
  {
    hide Checksum, Encode, Put, Holds, Size;
    WrittenAt(img, FieldOf(s), Encode(s));
    EncodedIs(s);
    match s
    case Keypair(_) => HeldAt(Put(img, KeypairField, Encode(s)), img, 417, Encode(s));
    case BootEpoch(_) => HeldAt(Put(img, BootEpochField, Encode(s)), img, 484, Encode(s));
    case _ =>
  }

  lemma HeldAt(after: Image, img: Image, at: nat, b: seq<byte>)
    requires at + |b| <= 512 && Holds(after, img, at, b)
    ensures forall i | 0 <= i < |b| :: b[i] == after[at + i]
  {
  }

  lemma WrittenAt(img: Image, f: Field, b: seq<byte>)
    requires |b| == Size(f)
    ensures Start(f) + |b| <= 512 && Holds(Put(img, f, b), img, Start(f), b)
  {
    Apart(f, f);
  }

  lemma EncodedIs(s: Setting)
    requires s.Keypair? ==> s.keys.Some?
    ensures match s
            case MasterFlag(on) => Encode(s) == [if on then 1 else 0]
            case DevFlag(on) => Encode(s) == [if on then 1 else 0]
            case MeshKey(k) => Encode(s) == k
            case PeerList(r) => Encode(s) == r
            case Keypair(p) =>
              && Encode(s) == p.value.0 + p.value.1 + [Encode(s)[64], Encode(s)[65]]
              && Encode(s)[64] as int + 0x100 * Encode(s)[65] as int == Checksum(p.value.0 + p.value.1)
            case Enrolled(on) => Encode(s) == [if on then 1 else 0xFF]
            case BootEpoch(e) =>
              && Encode(s) == [Encode(s)[0], Encode(s)[1], Encode(s)[2], Encode(s)[3]]
              && Encode(s)[0] as int + 0x100 * Encode(s)[1] as int + 0x1_0000 * Encode(s)[2] as int
                 + 0x100_0000 * Encode(s)[3] as int == e
            case KnownMaster(m) => Encode(s) == if m.Some? then m.value else [0xFF, 0xFF, 0xFF, 0xFF, 0xFF, 0xFF]
            case Secondary(m) => Encode(s) == if m.Some? then m.value else [0xFF, 0xFF, 0xFF, 0xFF, 0xFF, 0xFF]
            case AdapterType(x) => Encode(s) == [x]
            case RebootReason(x) => Encode(s) == [x]
            case RebootCount(x) => Encode(s) == [x]
            case Schema(x) => Encode(s) == [x]
            case TxPower(x) => Encode(s) == [x]
            case NodeId(x) => Encode(s) == [x]
  {
    hide Checksum;
    if s.BootEpoch? { EpochRoundTrip(s.epoch); }
  }

  /** The peer list as it is saved: the bytes of the records handed over, 38 for each, and 0xFF to the end. */
  lemma PaddedBytes(records: seq<byte>, n: nat, k: nat)
    requires n <= 10 && |records| >= 38 * n && k < 380
    ensures Store.Padded(records, n)[k] == if k < 38 * n then records[k] else 0xFF
  {
  }

  /** What a saved setting loads as. Only the erased values load as something else: an adapter type or node id of
      0xFF as 0, the last epoch as 0, a master of all 0xFF as none, a transmit power above 2 as 2. */
  lemma LoadedBack(img: Image, s: Setting)
    requires s.Keypair? ==> s.keys.Some?
    ensures Load(Put(img, FieldOf(s), Encode(s)), FieldOf(s))
            == if s == AdapterType(0xFF) then AdapterType(0)
               else if s == NodeId(0xFF) then NodeId(0)
               else if s == BootEpoch(0xFFFF_FFFF) then BootEpoch(0)
               else if s == KnownMaster(Some([0xFF, 0xFF, 0xFF, 0xFF, 0xFF, 0xFF])) then KnownMaster(None)
               else if s == Secondary(Some([0xFF, 0xFF, 0xFF, 0xFF, 0xFF, 0xFF])) then Secondary(None)
               else if s.TxPower? && s.preset > 2 then TxPower(2) else s
  {
    hide Put, Encode, Decode, Region, Sentinel;
    SaveThenLoad(img, s, FieldOf(s));
    PutRegion(img, FieldOf(s), Encode(s), FieldOf(s));
    ErasedValues(s);
  }

  lemma ErasedValues(s: Setting)
    requires s.Keypair? ==> s.keys.Some?
    ensures Sentinel(s) ==>
              Decode(FieldOf(s), Encode(s))
              == match s
                 case AdapterType(_) => AdapterType(0)
                 case NodeId(_) => NodeId(0)
                 case BootEpoch(_) => BootEpoch(0)
                 case KnownMaster(_) => KnownMaster(None)
                 case Secondary(_) => Secondary(None)
                 case _ => TxPower(2)
    ensures Sentinel(s) <==> s == AdapterType(0xFF) || s == NodeId(0xFF) || s == BootEpoch(0xFFFF_FFFF)
                             || s == KnownMaster(Some([0xFF, 0xFF, 0xFF, 0xFF, 0xFF, 0xFF]))
                             || s == Secondary(Some([0xFF, 0xFF, 0xFF, 0xFF, 0xFF, 0xFF]))
                             || (s.TxPower? && s.preset > 2)
  {
    hide Checksum;
    if s.BootEpoch? { EpochRoundTrip(s.epoch); }
  }

  /** What an erased image loads as: no flags, no masters, adapter type, node id and epoch 0, transmit power 2. The
      keypair hangs on the checksum and is left aside. */
  lemma ErasedLoads(f: Field)
    requires f != KeypairField
    ensures Load(Fill(512, 0xFF), f)
            == match f
               case MasterFlagField => MasterFlag(false)
               case DevFlagField => DevFlag(false)
               case AdapterTypeField => AdapterType(0)
               case MeshKeyField => MeshKey(Fill(16, 0xFF))
               case PeerListField => PeerList(Fill(380, 0xFF))
               case RebootReasonField => RebootReason(0xFF)
               case RebootCountField => RebootCount(0xFF)
               case EnrolledField => Enrolled(false)
               case BootEpochField => BootEpoch(0)
               case KnownMasterField => KnownMaster(None)
               case SchemaField => Schema(0xFF)
               case TxPowerField => TxPower(2)
               case NodeIdField => NodeId(0)
               case _ => Secondary(None)
  {
    hide KeysIn, Region;
    ErasedRegion(f);
  }

  lemma ErasedRegion(f: Field)
    ensures Region(Fill(512, 0xFF), f) == Fill(Size(f), 0xFF)
  {
    hide Start, Size;
    Apart(f, f);
    var b := Region(Fill(512, 0xFF), f);
    assert forall i | 0 <= i < |b| :: b[i] == 0xFF;
  }

  // ---------- Flash ----------

  /** Keys, enrolled flag, boot epoch, both masters and transmit power reach flash at once; the other settings wait in
      RAM and mark the store dirty. */
  lemma SaveReaches(st: StoreState, s: Setting)
    requires st.ready && !st.dev && Savable(s)
    ensures var after := Apply(st, Save(s));
            && after.image == Put(st.image, FieldOf(s), Encode(s))
            && (if s.Keypair? || s.Enrolled? || s.BootEpoch? || s.KnownMaster? || s.Secondary? || s.TxPower?
                then after.flash == after.image && after.dirty == st.dirty
                else after.flash == st.flash && after.dirty)
  {
    hide Put, Encode;
  }

  /** So each of those six comes back after a power cut right behind its save, with every value that can be told from
      an erased one; a keypair always, under its checksum. */
  lemma PreciousSurvives(st: StoreState, s: Setting)
    requires st.ready && !st.dev && st.image[494] in {3, 0xFF}
    requires (s.Keypair? && s.keys.Some?) || s.Enrolled? || s.BootEpoch? || s.KnownMaster? || s.Secondary? || s.TxPower?
    requires s != BootEpoch(0xFFFF_FFFF) && (s.TxPower? ==> s.preset <= 2)
    requires (s.KnownMaster? || s.Secondary?) ==> s.mac != Some([0xFF, 0xFF, 0xFF, 0xFF, 0xFF, 0xFF])
    ensures Load(Restarted(Apply(st, Save(s))).image, FieldOf(s)) == s
  {
    hide Put, Encode, Boot, Load, Apply;
    SaveReaches(st, s);
    LoadedBack(st.image, s);
    PutKeepsSchema(st.image, FieldOf(s), Encode(s));
    OthersSurvive(Put(st.image, FieldOf(s), Encode(s)), FieldOf(s));
  }

  /** Before the store is ready nothing is saved; in development mode only the node id. */
  lemma NotSavedExactly(st: StoreState, s: Setting)
    requires Savable(s)
    ensures !st.ready ==> Apply(st, Save(s)) == st
    ensures st.ready && st.dev && !s.NodeId? ==> Apply(st, Save(s)) == st
    ensures st.ready && s.NodeId? ==>
              Apply(st, Save(s)) == st.(image := st.image[496 := s.nodeId], dirty := true)
  {
    if s.NodeId? { PutByte(st.image, NodeIdField, s.nodeId); }
  }

  /** A periodic flush acts exactly when there is something to write and five seconds of the 32-bit clock have passed
      since the last; a forced one does not wait. */
  lemma FlushExactly(st: StoreState, now: uint32)
    ensures Apply(st, FlushIfDirty(now))
            == if st.dirty && (now - st.lastFlush) % 0x1_0000_0000 >= 5000
               then st.(flash := st.image, dirty := false, lastFlush := now) else st
    ensures Apply(st, ForceFlush(now))
            == if st.dirty then st.(flash := st.image, dirty := false, lastFlush := now) else st
  {
  }

  /** What clearing blanks, byte by byte, in any mode: everything, the inclusive range if it is one, the peer list. */
  lemma ClearedBytes(st: StoreState, lo: uint16, hi: uint16, k: nat)
    requires st.ready && k < 512
    ensures var all := Apply(st, ClearAll); all.image[k] == 0xFF && all.flash == all.image
    ensures var part := Apply(st, ClearRange(lo, hi));
            if lo <= hi < 512 then
              part.image[k] == (if lo <= k <= hi then 0xFF else st.image[k]) && part.flash == part.image
            else part == st
    ensures var list := Apply(st, ClearPeerList);
            && list.image[k] == (if 32 <= k < 412 then 0xFF else st.image[k])
            && list.flash == st.flash && list.dirty
  {
  }
}
