/** Named checkpoints of the isolated computer: a catalogue file beside Docker images and
    volumes. Every command can fail, fail after taking effect, or be the last thing the
    process does. */
module Snapshots {
  import opened Common
  import opened GoText

  type Files = map<string, string>

  const IMAGE_PREFIX := "openagentfleet-agent-computer-snap:"
  const VOLUME_PREFIX := "openagentfleet-snap-profile-"
  const MAX_SNAPSHOTS := 8
  const MAX_NAME := 80

  function ImageName(id: string): string {
    IMAGE_PREFIX + id
  }

  function VolumeName(id: string): string {
    VOLUME_PREFIX + id
  }

  /** Sixteen hexadecimal digits. */
  predicate IsId(id: string) {
    |id| == 16 && forall i :: 0 <= i < 16 ==> '0' <= id[i] <= '9' || 'a' <= id[i] <= 'f'
  }

  datatype Snapshot = Snapshot(id: string, name: string, image: string, profile: string)
  datatype Catalog = Catalog(snapshots: seq<Snapshot>, activeImage: string, activeId: string)
  datatype Container = Absent | Present(image: string, files: Files, running: bool, paused: bool)

  /** What a checkpoint was taken of: the container's files and the browser profile. */
  datatype Checkpoint = Checkpoint(files: Files, profile: Option<Files>)

  // ---------------------------------------------------------------------------
  // The catalogue

  function Find(snapshots: seq<Snapshot>, id: string): (found: Option<Snapshot>)
    ensures found.Some? ==> found.value in snapshots && found.value.id == id
    ensures found.None? <==> forall s :: s in snapshots ==> s.id != id
  {
    if snapshots == [] then None else if snapshots[0].id == id then Some(snapshots[0]) else Find(snapshots[1..], id)
  }

  function Without(snapshots: seq<Snapshot>, id: string): seq<Snapshot> {
    if snapshots == [] then []
    else
      var last := snapshots[|snapshots| - 1];
      Without(snapshots[..|snapshots| - 1], id) + (if last.id == id then [] else [last])
  }

  predicate IdsDistinct(snapshots: seq<Snapshot>) {
    forall i, j :: 0 <= i < j < |snapshots| ==> snapshots[i].id != snapshots[j].id
  }

  /** Either nothing is active, or an entry is, under its own image. */
  predicate ActiveIsListed(catalog: Catalog) {
    || (catalog.activeId == "" && catalog.activeImage == "")
    || (exists s :: s in catalog.snapshots && s.id == catalog.activeId && s.image == catalog.activeImage)
  }

  predicate WellNamed(s: Snapshot) {
    IsId(s.id) && s.image == ImageName(s.id) && (s.profile == "" || s.profile == VolumeName(s.id))
  }

  predicate WellFormed(catalog: Catalog) {
    && |catalog.snapshots| <= MAX_SNAPSHOTS
    && IdsDistinct(catalog.snapshots)
    && (forall s :: s in catalog.snapshots ==> WellNamed(s))
    && ActiveIsListed(catalog)
  }

  /** The image and the profile volume of a snapshot still hold what was captured. */
  predicate Kept(s: Snapshot, images: map<string, Files>, volumes: map<string, Files>, captured: map<string, Checkpoint>) {
    && s.id in captured
    && s.image in images && images[s.image] == captured[s.id].files
    && (if s.profile == "" then captured[s.id].profile.None?
        else s.profile in volumes && captured[s.id].profile == Some(volumes[s.profile]))
  }

  predicate Safe(catalog: Catalog, images: map<string, Files>, volumes: map<string, Files>, captured: map<string, Checkpoint>) {
    && WellFormed(catalog)
    && forall s :: s in catalog.snapshots ==> Kept(s, images, volumes, captured)
  }

  // ---------------------------------------------------------------------------
  // Names

  lemma NamesAreApart(a: string, b: string)
    ensures ImageName(a) == ImageName(b) ==> a == b
    ensures VolumeName(a) == VolumeName(b) ==> a == b
    ensures ImageName(a) != "" && VolumeName(a) != ""
  {
    assert ImageName(a)[|IMAGE_PREFIX|..] == a && ImageName(b)[|IMAGE_PREFIX|..] == b;
    assert VolumeName(a)[|VOLUME_PREFIX|..] == a && VolumeName(b)[|VOLUME_PREFIX|..] == b;
  }

  /** The image and the volume of a checkpoint, by its id. */
  lemma NamesAre(id: string)
    ensures ImageName(id) == "openagentfleet-agent-computer-snap:" + id
    ensures VolumeName(id) == "openagentfleet-snap-profile-" + id
  {}

  lemma PrefixesMark(id: string)
    ensures IMAGE_PREFIX <= ImageName(id) && VOLUME_PREFIX <= VolumeName(id)
  {}

  lemma IdIsTrimmed(id: string)
    requires IsId(id)
    ensures TrimSpace(id) == id && TrimSpace(ImageName(id)) == ImageName(id)
  {
    HexIsInk(id[15]);
    HexIsInk(id[0]);
    assert ImageName(id)[|ImageName(id)| - 1] == id[15] && ImageName(id)[0] == 'o';
    TrimOfTrimmed(id);
    TrimOfTrimmed(ImageName(id));
  }

  lemma HexIsInk(c: char)
    ensures '0' <= c <= '9' || 'a' <= c <= 'f' ==> !IsSpace(c)
  {}

  // ---------------------------------------------------------------------------
  // Removing entries

  lemma {:induction false} WithoutFacts(snapshots: seq<Snapshot>, id: string)
    requires IdsDistinct(snapshots)
    ensures var kept := Without(snapshots, id);
      && |kept| <= |snapshots| && IdsDistinct(kept)
      && (forall s :: s in kept <==> s in snapshots && s.id != id)
  {
    if snapshots != [] {
      var front := snapshots[..|snapshots| - 1];
      WithoutFacts(front, id);
      assert snapshots == front + [snapshots[|snapshots| - 1]];
      forall s | s in front
        ensures s.id != snapshots[|snapshots| - 1].id
      {}
    }
  }

  function Forget(catalog: Catalog, id: string): Catalog {
    Catalog(Without(catalog.snapshots, id),
            if catalog.activeId == id then "" else catalog.activeImage,
            if catalog.activeId == id then "" else catalog.activeId)
  }

  lemma {:induction false} WithoutNone(snapshots: seq<Snapshot>, id: string)
    requires forall i :: 0 <= i < |snapshots| ==> snapshots[i].id != id
    ensures Without(snapshots, id) == snapshots
  {
    if snapshots != [] {
      var front := snapshots[..|snapshots| - 1];
      WithoutNone(front, id);
      assert snapshots == front + [snapshots[|snapshots| - 1]];
    }
  }

  lemma {:induction false} WithoutOne(snapshots: seq<Snapshot>, k: nat)
    requires IdsDistinct(snapshots) && k < |snapshots|
    ensures Without(snapshots, snapshots[k].id) == snapshots[..k] + snapshots[k + 1..]
  {
    var front, last, id := snapshots[..|snapshots| - 1], snapshots[|snapshots| - 1], snapshots[k].id;
    if k == |snapshots| - 1 {
      WithoutNone(front, id);
    } else {
      WithoutOne(front, k);
      assert front[..k] == snapshots[..k] && snapshots[k + 1..] == front[k + 1..] + [last];
    }
  }

  /** What is left when an entry is forgotten: the other entries in their order, and the
      active one unless it was the forgotten entry. */
  lemma ForgetsOne(catalog: Catalog, id: string, item: Snapshot) returns (k: nat)
    requires WellFormed(catalog) && item in catalog.snapshots && item.id == id
    ensures k < |catalog.snapshots| && catalog.snapshots[k] == item
    ensures Forget(catalog, id).snapshots == catalog.snapshots[..k] + catalog.snapshots[k + 1..]
    ensures catalog.activeId != id ==>
      Forget(catalog, id).activeId == catalog.activeId && Forget(catalog, id).activeImage == catalog.activeImage
    ensures catalog.activeId == id ==> Forget(catalog, id).activeId == "" && Forget(catalog, id).activeImage == ""
  {
    hide WellNamed;
    k :| 0 <= k < |catalog.snapshots| && catalog.snapshots[k] == item;
    WithoutOne(catalog.snapshots, k);
  }

  lemma ForgetIsWellFormed(catalog: Catalog, id: string)
    requires WellFormed(catalog)
    ensures WellFormed(Forget(catalog, id))
    ensures forall s :: s in Forget(catalog, id).snapshots ==> s in catalog.snapshots && s.id != id
  {
    hide WellNamed, Without;
    WithoutFacts(catalog.snapshots, id);
    if catalog.activeId != id && catalog.activeId != "" {
      var s :| s in catalog.snapshots && s.id == catalog.activeId && s.image == catalog.activeImage;
      assert s in Forget(catalog, id).snapshots;
    }
  }

  // ---------------------------------------------------------------------------
  // What is active

  /** The marks of ListSnapshots. */
  predicate IsMarked(catalog: Catalog, s: Snapshot) {
    s.id == catalog.activeId || s.image == catalog.activeImage
  }

  lemma UniqueId(snapshots: seq<Snapshot>, a: Snapshot, b: Snapshot)
    requires IdsDistinct(snapshots) && a in snapshots && b in snapshots && a.id == b.id
    ensures a == b
  {
    var i :| 0 <= i < |snapshots| && snapshots[i] == a;
    var j :| 0 <= j < |snapshots| && snapshots[j] == b;
  }

  /** The list marks exactly the entry the active id names; comparing images adds none. */
  lemma MarksActive(catalog: Catalog)
    requires WellFormed(catalog)
    ensures forall s :: s in catalog.snapshots ==> (IsMarked(catalog, s) <==> s.id == catalog.activeId)
    ensures catalog.activeId != "" ==> exists s :: s in catalog.snapshots && IsMarked(catalog, s)
    ensures forall s, t :: s in catalog.snapshots && t in catalog.snapshots && IsMarked(catalog, s) && IsMarked(catalog, t) ==> s == t
  {
    hide ImageName, VolumeName;
    forall s | s in catalog.snapshots
      ensures IsMarked(catalog, s) <==> s.id == catalog.activeId
    {
      NamesAreApart(s.id, catalog.activeId);
      if s.image == catalog.activeImage {
        assert !(catalog.activeId == "" && catalog.activeImage == "");
        var active :| active in catalog.snapshots && active.id == catalog.activeId && active.image == catalog.activeImage;
        NamesAreApart(s.id, active.id);
      }
    }
    forall s, t | s in catalog.snapshots && t in catalog.snapshots && IsMarked(catalog, s) && IsMarked(catalog, t)
      ensures s == t
    {
      UniqueId(catalog.snapshots, s, t);
    }
  }

  function RunImage(catalog: Catalog, baseImage: string): string {
    if TrimSpace(catalog.activeImage) != "" then TrimSpace(catalog.activeImage) else baseImage
  }

  /** The image to run, asked for anew each time: a catalogue that cannot be read counts as
      one without an active snapshot. */
  function ImageRead(catalog: Catalog, baseImage: string, read: bool): string {
    if read then RunImage(catalog, baseImage) else baseImage
  }

  /** The active snapshot's image is there with the captured files, and the computer starts
      from it exactly when the catalogue is read; otherwise it starts from the base image. */
  lemma RunImageIsKept(catalog: Catalog, images: map<string, Files>, volumes: map<string, Files>,
                       captured: map<string, Checkpoint>, baseImage: string, read: bool)
    requires Safe(catalog, images, volumes, captured)
    ensures var image := ImageRead(catalog, baseImage, read);
      if catalog.activeId == "" then image == baseImage
      else
        && (image == catalog.activeImage <==> read || catalog.activeImage == baseImage)
        && (image == baseImage <==> !read || catalog.activeImage == baseImage)
        && catalog.activeId in captured && catalog.activeImage in images
        && images[catalog.activeImage] == captured[catalog.activeId].files
  {
    hide ImageName, VolumeName, IsId, TrimSpace;
    if exists s :: s in catalog.snapshots && s.id == catalog.activeId && s.image == catalog.activeImage {
      var s :| s in catalog.snapshots && s.id == catalog.activeId && s.image == catalog.activeImage;
      assert WellNamed(s) && Kept(s, images, volumes, captured);
      IdIsTrimmed(s.id);
      IdIsLong(s.id);
      NamesAreApart(s.id, s.id);
    } else {
      TrimOfTrimmed("");
    }
  }

  /** A snapshot is active and its image is there, but the catalogue cannot be read: the
      computer starts from the base image, without the captured files. */
  lemma UnreadableCatalog()
    ensures var id := "0123456789abcdef"; var base := "openagentfleet-agent-computer:" + "ubuntu-24.04";
      var item := Snapshot(id, "Signed in", ImageName(id), "");
      var catalog := Catalog([item], item.image, id);
      var images: map<string, Files> := map[base := map[], item.image := map["/etc/hosts" := "agent"]];
      var captured := map[id := Checkpoint(map["/etc/hosts" := "agent"], None)];
      && Safe(catalog, images, map[], captured)
      && ImageRead(catalog, base, true) == item.image && images[item.image] == captured[id].files
      && ImageRead(catalog, base, false) == base && images[base] != captured[id].files
  {
    var id := "0123456789abcdef";
    var base := "openagentfleet-agent-computer:" + "ubuntu-24.04";
    var item := Snapshot(id, "Signed in", ImageName(id), "");
    var catalog := Catalog([item], item.image, id);
    assert IsId(id);
    assert ImageName(id)[29] == '-' && base[29] == ':';
    hide ImageName, IsId, TrimSpace;
    var saved: Files := map["/etc/hosts" := "agent"];
    var images: map<string, Files> := map[base := map[], item.image := saved];
    var captured := map[id := Checkpoint(saved, None)];
    assert "/etc/hosts" in saved && saved != map[];
    assert item in catalog.snapshots;
    assert Safe(catalog, images, map[], captured);
    RunImageIsKept(catalog, images, map[], captured, base, true);
  }

  lemma IdIsLong(id: string)
    requires IsId(id)
    ensures id != ""
  {}
}
