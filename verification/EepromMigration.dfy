/**
 What the first call after power-up makes of an image of any layout version: versions 0 to 2 are brought
 to version 3, newer ones are erased, and the reboot bytes are made sane.
 */
module EepromMigration {
  import opened Basics
  import opened MeshTypes
  import opened EepromImage

  const CURRENT_SCHEMA_VERSION: byte := 3

  // The addresses of version 0, all inside today's peer list.
  const V1_REBOOT_REASON: nat := 92
  const V1_REBOOT_COUNT: nat := 93
  const V1_PRIVATE_KEY: nat := 97
  const V1_PUBLIC_KEY: nat := 129
  const V1_KEYPAIR_CRC: nat := 161
  const V1_ENROLLED_FLAG: nat := 163

  function SaneReason(b: byte): byte { if b == 0 then 0xFF else b }

  function SaneCount(b: byte): byte { if b > 10 then 0 else b }

  /** Reboot bytes, keypair and enrolled flag move out of the peer list, which is blanked. */
  function FromV0(img: Image): Image {
    img[..32] + Fill(380, 0xFF)
    + [SaneReason(img[V1_REBOOT_REASON]), SaneCount(img[V1_REBOOT_COUNT])] + img[414..417]
    + img[V1_PRIVATE_KEY..V1_ENROLLED_FLAG + 1] + img[484..]
  }

  function Versioned(img: Image): Image { Put(img, SchemaField, [CURRENT_SCHEMA_VERSION]) }

  /** The image at the current version. */
  function Migrated(img: Image): Image {
    var v := img[Start(SchemaField)];
    if v == 0xFF then Versioned(img)
    else if v < CURRENT_SCHEMA_VERSION then
      Versioned(Put(if v == 0 then FromV0(img) else img, SecondaryField, BROADCAST_MAC))
    else if v > CURRENT_SCHEMA_VERSION then Versioned(Fill(512, 0xFF))
    else img
  }

  function Sane(img: Image): Image {
    img[Start(RebootReasonField) := SaneReason(img[Start(RebootReasonField)])]
       [Start(RebootCountField) := SaneCount(img[Start(RebootCountField)])]
  }

  /** The image after boot. */
  function Boot(img: Image): Image { Sane(Migrated(img)) }

  /** The images committed to flash on the way, in order. */
  function Commits(img: Image): seq<Image> {
    var v := img[Start(SchemaField)];
    (if v == CURRENT_SCHEMA_VERSION then []
     else if v > CURRENT_SCHEMA_VERSION && v != 0xFF then [Fill(512, 0xFF), Migrated(img)]
     else [Migrated(img)]) + [Boot(img)]
  }

  // ---------- What holds afterwards ----------

  /** Whatever was in flash, the image boots to version 3 with sane reboot bytes, and booting again changes
      nothing. */
  lemma BootIsStable(img: Image)
    ensures Load(Boot(img), SchemaField) == Schema(3)
    ensures Load(Boot(img), RebootCountField).count <= 10 && Load(Boot(img), RebootReasonField).reason != 0
    ensures Boot(Boot(img)) == Boot(img)
  {
    hide FromV0, Sane;
    var m := Migrated(img);
    assert m[Start(SchemaField)] == 3;
    SaneBytes(m);
    assert Migrated(Sane(m)) == Sane(m);
  }

  lemma SaneBytes(img: Image)
    ensures Sane(img)[494] == img[494] && Sane(img)[412] != 0 && Sane(img)[413] <= 10
    ensures Sane(Sane(img)) == Sane(img)
  {
  }

  /** A power cut during the migration does no harm: from every image committed on the way, the next boot ends
      where the first would have. */
  lemma MigrationSurvivesPowerCuts(img: Image, c: Image)
    requires c in Commits(img)
    ensures Boot(c) == Boot(img)
  {
    hide FromV0, Sane;
    BootIsStable(img);
    var blank := Fill(512, 0xFF);
    assert Migrated(img)[Start(SchemaField)] == 3;
    if c == blank {
      assert blank[Start(SchemaField)] == 0xFF;
    }
  }

  /** A version-0 image keeps its keypair and its enrolled flag although both lay inside the new peer list; the
      first 32 bytes stay, the peer list is blank. */
  lemma V0Survives(img: Image)
    requires img[494] == 0
    ensures Load(Boot(img), KeypairField) == Keypair(KeysIn(img[97..163]))
    ensures Load(Boot(img), EnrolledField) == Enrolled(img[163] == 1)
    ensures Boot(img)[..32] == img[..32]
    ensures Load(Boot(img), PeerListField) == PeerList(Fill(380, 0xFF))
    ensures Load(Boot(img), BootEpochField) == Load(img, BootEpochField)
    ensures Load(Boot(img), KnownMasterField) == Load(img, KnownMasterField)
    ensures Load(Boot(img), SecondaryField) == Secondary(None)
  {
    hide KeysIn, Boot, LittleEndian32;
    var b := Boot(img);
    V0Bytes(img);
    SameBytes(b, 417, img[97..163]);
    SameBytes(b, 32, Fill(380, 0xFF));
    SameBytes(b, 484, img[484..488]);
    SameBytes(b, 488, img[488..494]);
    SameBytes(b, 497, BROADCAST_MAC);
    SameBytes(b, 0, img[..32]);
  }

  lemma SameBytes(img: Image, at: nat, b: seq<byte>)
    requires at + |b| <= 512 && forall k | 0 <= k < |b| :: img[at + k] == b[k]
    ensures ReadAt(img, at, |b|) == b
  {
  }

  lemma V0Bytes(img: Image)
    requires img[Start(SchemaField)] == 0
    ensures forall k | 0 <= k < 32 || 484 <= k < 494 :: Boot(img)[k] == img[k]
    ensures forall k | 32 <= k < 412 || 497 <= k < 503 :: Boot(img)[k] == 0xFF
    ensures forall k | 417 <= k < 484 :: Boot(img)[k] == img[k - 320]
  {
    hide FromV0, WriteAt;
    FromV0Bytes(img);
    var a := Put(FromV0(img), SecondaryField, BROADCAST_MAC);
    assert Migrated(img) == Versioned(a);
    assert forall k | 0 <= k < 512 :: a[k] == if 497 <= k < 503 then 0xFF else FromV0(img)[k];
    assert forall k | 0 <= k < 512 :: Versioned(a)[k] == if k == 494 then 3 else a[k];
  }

  lemma FromV0Bytes(img: Image)
    ensures forall k | 0 <= k < 32 || 484 <= k < 512 :: FromV0(img)[k] == img[k]
    ensures forall k | 32 <= k < 412 :: FromV0(img)[k] == 0xFF
    ensures forall k | 417 <= k < 484 :: FromV0(img)[k] == img[k - 320]
  {
  }

  /** From versions 1 to 3 and from a blank version byte every setting but the named ones survives the boot. */
  lemma OthersSurvive(img: Image, f: Field)
    requires img[494] == 0xFF || 1 <= img[494] <= 3
    requires f !in {SchemaField, RebootReasonField, RebootCountField}
    requires f == SecondaryField ==> img[494] !in {1, 2}
    ensures Load(Boot(img), f) == Load(img, f)
  {
    hide Decode;
    var m := Migrated(img);
    assert Region(m, f) == Region(img, f) by {
      PutRegion(img, SchemaField, [3], f);
      PutRegion(img, SecondaryField, BROADCAST_MAC, f);
      PutRegion(Put(img, SecondaryField, BROADCAST_MAC), SchemaField, [3], f);
    }
    SaneRegion(m, f);
  }

  lemma SaneRegion(img: Image, f: Field)
    requires f !in {RebootReasonField, RebootCountField}
    ensures Region(Sane(img), f) == Region(img, f)
  {
    Apart(f, RebootReasonField);
    Apart(f, RebootCountField);
  }
}
