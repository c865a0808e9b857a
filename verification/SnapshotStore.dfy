/** The computer's lifecycle over its checkpoints. */
module SnapshotStore {
  import opened Common
  import opened GoText
  import opened Snapshots

  // ---------------------------------------------------------------------------
  // Commands

  datatype Question = HasRandom | IsRunning | KeepsToken | IsReady | ClearsToken

  /** What the process asks of Docker, of the file system and of its surroundings. */
  datatype Command =
    | Rmi(image: string) | VolumeRm(volume: string) | Resume | Pause | Commit(image: string)
    | VolumeCreate(volume: string) | Copy(source: string, destination: string) | Rm
    | Run(image: string) | Inspect(image: string) | Build | Read | Save | Ask(question: Question)

  /** A command that was issued, and whether its success was seen. */
  datatype Event = Event(command: Command, ok: bool)

  /** What becomes of a command: whether it takes effect, whether success is seen, whether it is
      the last thing the process does, and whether a container comes up all the same. */
  datatype Fate = Fate(works: bool, reported: bool, dies: bool, comesUp: bool)

  /** What the guest writes when it can. */
  datatype Writes = Writes(files: Files, profile: Files)

  datatype CreateError =
    | ExecutionDisabled | BadName | NotRunning | CannotRead | Full | NoRandomness
    | CannotPause | CannotCommit | CannotCopy | CannotResume | CannotSave
  datatype CreateResult = Created(item: Snapshot) | NotCreated(error: CreateError)

  datatype StartError = StartDisabled | Unavailable | CannotReplace | NoVolume | CheckpointMissing(image: string) | CannotBuild | CannotStart | NotReady
  datatype StartResult = AlreadyReady | Started | NotStarted(error: StartError)

  /** What the computer's status says when it is asked: it may be old, or wrong. */
  datatype Answer = Answer(available: bool, running: bool, listed: bool, image: string, healthy: bool)

  datatype RestoreError = RestoreDisabled | RestoreCannotRead | NotFound | CannotStop | CannotReplaceProfile | RestoreCannotSave
  datatype RestoreResult = Restored(start: StartResult) | NotRestored(error: RestoreError)

  datatype DeleteResult = Deleted | DeleteNotFound | DeleteCannotRead | DeleteCannotSave

  /** Why an operation failed. */
  datatype Why = OfCreate(create: CreateError) | OfStart(start: StartError) | OfRestore(restore: RestoreError) | OfStop

  /** The commands whose failure is the reason. */
  predicate Explains(c: Command, why: Why) {
    match why
    case OfCreate(NotRunning) => c == Ask(IsRunning)
    case OfCreate(CannotRead) => c.Read?
    case OfCreate(NoRandomness) => c == Ask(HasRandom)
    case OfCreate(CannotPause) => c.Pause?
    case OfCreate(CannotCommit) => c.Commit?
    case OfCreate(CannotCopy) => c.VolumeCreate? || c.Copy?
    case OfCreate(CannotResume) => c.Resume?
    case OfCreate(CannotSave) => c.Save?
    case OfStop => c.Rm? || c == Ask(ClearsToken)
    case OfStart(CannotReplace) => c.Rm? || c == Ask(ClearsToken)
    case OfStart(NoVolume) => c.VolumeCreate?
    case OfStart(CheckpointMissing(_)) => c.Inspect?
    case OfStart(CannotBuild) => c.Inspect? || c.Build?
    case OfStart(CannotStart) => c.Run? || c == Ask(KeepsToken)
    case OfStart(NotReady) => c == Ask(IsReady)
    case OfRestore(RestoreCannotRead) => c.Read?
    case OfRestore(CannotStop) => c.Rm? || c == Ask(ClearsToken)
    case OfRestore(CannotReplaceProfile) => c.VolumeCreate? || c.Copy?
    case OfRestore(RestoreCannotSave) => c.Save?
    case _ => false
  }

  /** One of the commands since has failed, and it is the reason. */
  ghost predicate Blamed(before: seq<Event>, after: seq<Event>, why: Why) {
    exists i :: |before| <= i < |after| && !after[i].ok && Explains(after[i].command, why)
  }

  /** A command whose outcome decides nothing: tidying up, and for a start also readings of the
      catalogue and of images. */
  predicate IsNeeded(c: Command, starting: bool) {
    !c.Rmi? && !c.VolumeRm? && !c.Resume? && !(starting && (c.Read? || c.Inspect?))
  }

  /** Every command since that mattered was successful. */
  ghost predicate Well(before: seq<Event>, after: seq<Event>, starting: bool) {
    forall i :: |before| <= i < |after| && IsNeeded(after[i].command, starting) ==> after[i].ok
  }

  lemma BlamedThen(a: seq<Event>, b: seq<Event>, c: seq<Event>, d: seq<Event>, why: Why)
    requires |a| <= |b| && b <= c <= d && Blamed(b, c, why)
    ensures Blamed(a, d, why)
  {
    hide Explains;
    var i :| |b| <= i < |c| && !c[i].ok && Explains(c[i].command, why);
    assert d[i] == c[i];
  }

  lemma WellThen(a: seq<Event>, b: seq<Event>, c: seq<Event>, starting: bool)
    requires a <= b <= c && Well(a, b, starting) && Well(b, c, starting)
    ensures Well(a, c, starting)
  {
    hide IsNeeded;
    forall i | |a| <= i < |c| && IsNeeded(c[i].command, starting)
      ensures c[i].ok
    {
      if i < |b| { assert c[i] == b[i]; }
    }
  }

  lemma OneEvent(before: seq<Event>, c: Command, ok: bool, why: Why)
    ensures !ok && Explains(c, why) ==> Blamed(before, before + [Event(c, ok)], why)
    ensures ok ==> Well(before, before + [Event(c, ok)], true) && Well(before, before + [Event(c, ok)], false)
    ensures !IsNeeded(c, true) ==> Well(before, before + [Event(c, ok)], true)
    ensures !IsNeeded(c, false) ==> Well(before, before + [Event(c, ok)], false)
  {
    hide Explains;
    assert (before + [Event(c, ok)])[|before|] == Event(c, ok);
  }

  /** Every file of the first is in the second, unchanged. */
  ghost predicate Within(some: Files, all: Files) {
    forall path :: path in some ==> path in all && all[path] == some[path]
  }

  /** Copying a profile over what is left of another gives exactly the copied one just when
      the other has no path of its own. */
  lemma OverlayIsExact(base: Files, profile: Files)
    ensures Within(profile, base + profile)
    ensures base + profile == profile <==> forall path :: path in base ==> path in profile
  {
    var all := base + profile;
    forall path | path in base
      ensures path in all
    {}
    if forall path :: path in base ==> path in profile {
      assert all == profile;
    }
  }

  ghost predicate Extends(before: map<string, Checkpoint>, after: map<string, Checkpoint>) {
    forall id :: id in before ==> id in after && after[id] == before[id]
  }

  // ---------------------------------------------------------------------------
  // What keeps the catalogue safe

  ghost predicate SameForCatalog(catalog: Catalog, images: map<string, Files>, volumes: map<string, Files>,
                                 images': map<string, Files>, volumes': map<string, Files>) {
    forall s :: s in catalog.snapshots ==>
      && (s.image in images ==> s.image in images' && images'[s.image] == images[s.image])
      && (s.profile in volumes ==> s.profile in volumes' && volumes'[s.profile] == volumes[s.profile])
  }

  lemma StaysSafe(catalog: Catalog, images: map<string, Files>, volumes: map<string, Files>,
                  images': map<string, Files>, volumes': map<string, Files>,
                  captured: map<string, Checkpoint>, captured': map<string, Checkpoint>)
    requires Safe(catalog, images, volumes, captured)
    requires SameForCatalog(catalog, images, volumes, images', volumes')
    requires Extends(captured, captured')
    ensures Safe(catalog, images', volumes', captured')
  {
    hide WellFormed;
    forall s | s in catalog.snapshots
      ensures Kept(s, images', volumes', captured')
    {
      assert Kept(s, images, volumes, captured);
    }
  }

  ghost predicate Agrees(a: map<string, Files>, b: map<string, Files>, name: string) {
    (name in a <==> name in b) && (name in a ==> a[name] == b[name])
  }

  // Changing an image or a volume that no entry names.
  lemma UnlistedIsFree(catalog: Catalog, images: map<string, Files>, volumes: map<string, Files>,
                       images': map<string, Files>, volumes': map<string, Files>,
                       captured: map<string, Checkpoint>, id: string)
    requires Safe(catalog, images, volumes, captured)
    requires forall s :: s in catalog.snapshots ==> s.id != id
    requires forall name :: name != ImageName(id) ==> Agrees(images, images', name)
    requires forall name :: name != VolumeName(id) ==> Agrees(volumes, volumes', name)
    ensures Safe(catalog, images', volumes', captured)
  {
    hide ImageName, VolumeName, Kept;
    forall s | s in catalog.snapshots
      ensures s.image != ImageName(id) && s.profile != VolumeName(id)
    {
      assert WellNamed(s);
      NamesAreApart(id, s.id);
    }
    forall s | s in catalog.snapshots
      ensures (s.image in images ==> s.image in images' && images'[s.image] == images[s.image])
      ensures (s.profile in volumes ==> s.profile in volumes' && volumes'[s.profile] == volumes[s.profile])
    {
      assert Agrees(images, images', s.image) && Agrees(volumes, volumes', s.profile);
    }
    StaysSafe(catalog, images, volumes, images', volumes', captured, captured);
  }

  // Changing the computer's own image or profile.
  lemma OwnIsFree(catalog: Catalog, images: map<string, Files>, volumes: map<string, Files>,
                  images': map<string, Files>, volumes': map<string, Files>,
                  captured: map<string, Checkpoint>, baseImage: string, profileVolume: string)
    requires Safe(catalog, images, volumes, captured)
    requires !(IMAGE_PREFIX <= baseImage) && !(VOLUME_PREFIX <= profileVolume)
    requires forall name :: name != baseImage ==> Agrees(images, images', name)
    requires volumes' == volumes || (profileVolume != "" && forall name :: name != profileVolume ==> Agrees(volumes, volumes', name))
    ensures Safe(catalog, images', volumes', captured)
  {
    hide ImageName, VolumeName, Kept;
    forall s | s in catalog.snapshots
      ensures (s.image in images ==> s.image in images' && images'[s.image] == images[s.image])
      ensures (s.profile in volumes ==> s.profile in volumes' && volumes'[s.profile] == volumes[s.profile])
    {
      assert WellNamed(s);
      PrefixesMark(s.id);
      assert s.profile != profileVolume || volumes == volumes';
      assert Agrees(images, images', s.image);
      if volumes != volumes' { assert Agrees(volumes, volumes', s.profile); }
    }
    StaysSafe(catalog, images, volumes, images', volumes', captured, captured);
  }

  lemma UnlistedVolume(catalog: Catalog, id: string)
    requires WellFormed(catalog) && forall s :: s in catalog.snapshots ==> s.id != id
    ensures forall s :: s in catalog.snapshots ==> s.profile != VolumeName(id)
  {
    hide ImageName, VolumeName;
    forall s | s in catalog.snapshots
      ensures s.profile != VolumeName(id)
    {
      assert WellNamed(s);
      NamesAreApart(id, s.id);
    }
  }

  lemma VolumesAreApart(id: string, used: set<string>)
    requires id in used
    ensures forall other :: VolumeName(other) == VolumeName(id) ==> other in used
  {
    hide VolumeName;
    forall other | VolumeName(other) == VolumeName(id)
      ensures other in used
    {
      NamesAreApart(id, other);
    }
  }

  // A new entry may be listed once its image and volume hold what was captured.
  lemma ListedIsSafe(catalog: Catalog, images: map<string, Files>, volumes: map<string, Files>,
                     captured: map<string, Checkpoint>, item: Snapshot)
    requires Safe(catalog, images, volumes, captured)
    requires |catalog.snapshots| < MAX_SNAPSHOTS && WellNamed(item) && Kept(item, images, volumes, captured)
    requires forall s :: s in catalog.snapshots ==> s.id != item.id
    ensures Safe(catalog.(snapshots := [item] + catalog.snapshots), images, volumes, captured)
  {
    hide WellNamed, Kept;
    var next := catalog.(snapshots := [item] + catalog.snapshots);
    forall s | s in next.snapshots
      ensures WellNamed(s) && Kept(s, images, volumes, captured)
    {
      assert s == item || s in catalog.snapshots;
    }
    forall s | s in catalog.snapshots
      ensures s in next.snapshots
    {
      var i :| 0 <= i < |catalog.snapshots| && catalog.snapshots[i] == s;
      assert next.snapshots[i + 1] == s;
    }
    assert forall j :: 0 <= j < |catalog.snapshots| ==> catalog.snapshots[j] in catalog.snapshots;
  }

  lemma ActivatedIsSafe(catalog: Catalog, images: map<string, Files>, volumes: map<string, Files>,
                        captured: map<string, Checkpoint>, item: Snapshot)
    requires Safe(catalog, images, volumes, captured) && item in catalog.snapshots
    ensures Safe(catalog.(activeImage := item.image, activeId := item.id), images, volumes, captured)
  {
    hide WellNamed, Kept;
  }

  lemma ForgetIsSafe(catalog: Catalog, images: map<string, Files>, volumes: map<string, Files>,
                     captured: map<string, Checkpoint>, id: string)
    requires Safe(catalog, images, volumes, captured)
    ensures Safe(Forget(catalog, id), images, volumes, captured)
    ensures forall s :: s in Forget(catalog, id).snapshots ==> s.id != id
  {
    hide WellFormed, Kept, Forget;
    ForgetIsWellFormed(catalog, id);
  }

  /** Only the active entry changed, to the one with the id. */
  ghost predicate IsActivation(before: Catalog, after: Catalog, id: string) {
    && (exists s :: s in before.snapshots && s.id == id == after.activeId && s.image == after.activeImage)
    && after.snapshots == before.snapshots
  }

  /** The computer was in the given state at some moment since. */
  ghost predicate Reached(moments: seq<Checkpoint>, since: nat, state: Checkpoint) {
    exists k :: since <= k < |moments| && moments[k] == state
  }

  lemma ReachedEarlier(moments: seq<Checkpoint>, since: nat, earlier: nat, state: Checkpoint)
    requires Reached(moments, since, state) && earlier <= since
    ensures Reached(moments, earlier, state)
  {}

  function FilesIn(volumes: map<string, Files>, volume: string): Files {
    if volume in volumes then volumes[volume] else map[]
  }

  /** The volumes after one was unpacked over another. */
  function Unpacked(volumes: map<string, Files>, source: string, destination: string): map<string, Files> {
    volumes[destination := FilesIn(volumes, destination) + FilesIn(volumes, source)]
  }

  function FilesOf(profile: Option<Files>): Files {
    if profile.Some? then profile.value else map[]
  }

  /** A state of the computer that is the captured one, but for a profile unpacked over what
      was left of an older one: every captured file is back, and the whole state is the
      captured one exactly when nothing was left at a path of its own. */
  ghost predicate ComesBack(checkpoint: Checkpoint, moment: Checkpoint, left: Files) {
    && moment.files == checkpoint.files
    && (moment.profile.Some? && checkpoint.profile.Some? ==>
          && moment.profile.value == left + checkpoint.profile.value
          && Within(checkpoint.profile.value, moment.profile.value)
          && (moment == checkpoint <==> forall path :: path in left ==> path in checkpoint.profile.value))
  }

  lemma FilesDecide(checkpoint: Checkpoint, moment: Checkpoint, left: Files)
    requires ComesBack(checkpoint, Checkpoint(checkpoint.files, moment.profile), left)
    ensures ComesBack(checkpoint, moment, left) <==> moment.files == checkpoint.files
  {
    if moment.files == checkpoint.files {
      assert moment == Checkpoint(checkpoint.files, moment.profile);
    }
  }

  /** What an older profile held: as it was when no computer used it, and otherwise as at a
      moment of the computer, the last before or one since. */
  ghost predicate IsLeft(left: Files, container: Container, profile: Option<Files>, moments: seq<Checkpoint>, since: nat) {
    if container.Absent? then left == FilesOf(profile)
    else exists k :: 0 <= k < |moments| && since - 1 <= k && left == FilesOf(moments[k].profile)
  }

  lemma LeftStays(left: Files, container: Container, profile: Option<Files>, moments: seq<Checkpoint>, later: seq<Checkpoint>, since: nat)
    requires IsLeft(left, container, profile, moments, since) && moments <= later
    ensures IsLeft(left, container, profile, later, since)
  {
    if container.Present? {
      var k :| 0 <= k < |moments| && since - 1 <= k && left == FilesOf(moments[k].profile);
      assert later[k] == moments[k];
    }
  }

  /** An old profile with a file of its own, which stays when its volume is not removed: the
      checkpoint's profile is unpacked over it, and the computer is not in the captured
      state. */
  lemma InexactRestore()
    ensures var id := "0123456789abcdef"; var own := "openagentfleet-browser";
      var older: Files := map["Cookies" := "session"]; var saved: Files := map["Preferences" := "dark"];
      var volumes := map[own := older, VolumeName(id) := saved];
      var checkpoint := Checkpoint(map[], Some(saved));
      var moment := Checkpoint(map[], Some(FilesIn(Unpacked(volumes, VolumeName(id), own), own)));
      && IsId(id) && ComesBack(checkpoint, moment, older)
      && moment.profile == Some(map["Cookies" := "session", "Preferences" := "dark"])
      && moment != checkpoint
  {
    var older: Files := map["Cookies" := "session"];
    var saved: Files := map["Preferences" := "dark"];
    var both: Files := map["Cookies" := "session", "Preferences" := "dark"];
    InexactNames();
    hide VolumeName, IsId;
    assert older + saved == both;
    assert "Cookies" in older && "Cookies" !in saved && "Cookies" in both;
    OverlayIsExact(older, saved);
  }

  lemma InexactNames()
    ensures IsId("0123456789abcdef") && VolumeName("0123456789abcdef") != "openagentfleet-browser"
  {
    assert |VolumeName("0123456789abcdef")| > |"openagentfleet-browser"|;
  }

  ghost predicate EndsIn(before: seq<Event>, after: seq<Event>, commands: seq<Command>) {
    && |after| >= |before| + |commands|
    && forall i :: 0 <= i < |commands| ==> after[|after| - |commands| + i].command == commands[i]
  }

  lemma ResumesAfter(before: seq<Event>, after: seq<Event>, command: Command, resumed: Event)
    requires |before| <= |after| && resumed.command == Resume
    ensures EndsIn(before, after + [resumed], [Resume])
    ensures EndsIn(before, after, [command]) ==> EndsIn(before, after + [resumed], [command, Resume])
  {}

  lemma EndsInEarlier(earlier: seq<Event>, before: seq<Event>, after: seq<Event>, commands: seq<Command>)
    requires |earlier| <= |before|
    ensures EndsIn(before, after, commands) ==> EndsIn(earlier, after, commands)
  {}

  /** The last command found an image or built one. */
  ghost predicate HasImage(before: seq<Event>, after: seq<Event>) {
    |before| < |after| && after[|after| - 1].ok && (after[|after| - 1].command.Inspect? || after[|after| - 1].command.Build?)
  }

  /** The image was found or built, then the image to run was asked for and run, the token kept
      and the computer found ready. */
  ghost predicate Launched(before: seq<Event>, after: seq<Event>, image: string) {
    && |before| + 5 <= |after|
    && HasImage(before, after[..|after| - 4]) && after[|after| - 4].command.Read?
    && after[|after| - 3..] == [Event(Run(image), true), Event(Ask(KeepsToken), true), Event(Ask(IsReady), true)]
  }

  lemma Launches(before: seq<Event>, prepared: seq<Event>, read: bool, image: string)
    requires HasImage(before, prepared)
    ensures Launched(before, prepared + [Event(Read, read)] + [Event(Run(image), true)] + [Event(Ask(KeepsToken), true)] + [Event(Ask(IsReady), true)], image)
  {
    var after := prepared + [Event(Read, read)] + [Event(Run(image), true)] + [Event(Ask(KeepsToken), true)] + [Event(Ask(IsReady), true)];
    assert after[..|after| - 4] == prepared;
  }

  lemma LaunchedEarlier(earlier: seq<Event>, before: seq<Event>, after: seq<Event>, image: string)
    requires |earlier| <= |before| && Launched(before, after, image)
    ensures Launched(earlier, after, image)
  {}

  /** The last thing tried was to stop: removing the container, and if that worked the token. */
  ghost predicate StopTried(before: seq<Event>, after: seq<Event>) {
    && |before| < |after|
    && (after[|after| - 1] == Event(Rm, false)
        || (|before| + 1 < |after| && after[|after| - 2] == Event(Rm, true) && after[|after| - 1].command == Ask(ClearsToken)))
  }

  lemma StopTriedEarlier(earlier: seq<Event>, before: seq<Event>, after: seq<Event>)
    requires |earlier| <= |before| && StopTried(before, after)
    ensures StopTried(earlier, after)
  {}

  /** What the commands say of a start: a started computer was launched, with every command that
      mattered successful; an error has a command that failed for its reason; a computer that
      cannot be replaced or did not get ready was tried to be stopped. */
  ghost predicate TellsStart(before: seq<Event>, after: seq<Event>, r: StartResult, live: bool, image: string) {
    && (r.Started? ==> Well(before, after, true) && Launched(before, after, image))
    && (live && r.NotStarted? && r.error !in {StartDisabled, Unavailable} ==> Blamed(before, after, OfStart(r.error)))
    && (live && r in {NotStarted(CannotReplace), NotStarted(NotReady)} ==> StopTried(before, after))
  }

  lemma TellsStartEarlier(earlier: seq<Event>, before: seq<Event>, after: seq<Event>, r: StartResult, live: bool, image: string)
    requires earlier <= before <= after && Well(earlier, before, true) && TellsStart(before, after, r, live, image)
    ensures TellsStart(earlier, after, r, live, image)
  {
    hide Well, Launched, Blamed, StopTried, Explains, IsNeeded;
    if r.Started? {
      WellThen(earlier, before, after, true);
      LaunchedEarlier(earlier, before, after, image);
    }
    if live && r.NotStarted? && r.error !in {StartDisabled, Unavailable} {
      BlamedThen(earlier, before, after, after, OfStart(r.error));
    }
    if live && r in {NotStarted(CannotReplace), NotStarted(NotReady)} {
      StopTriedEarlier(earlier, before, after);
    }
  }

  /** What removes the image and the volume of a snapshot. */
  function Removals(s: Snapshot): seq<Command> {
    [Rmi(s.image)] + (if s.profile == "" then [] else [VolumeRm(s.profile)])
  }

  // ---------------------------------------------------------------------------

  class Computer {
    const allowExecution: bool
    const canBuild: bool
    const baseImage: string
    /** The browser profile volume, or nothing when the profile is a host directory. */
    const profileVolume: string
    /** What becomes of each command, and what the guest writes at each moment: anything. */
    const fates: nat -> Fate
    const guest: nat -> Writes

    var catalog: Catalog
    var images: map<string, Files>
    var volumes: map<string, Files>
    var container: Container
    /** The process is still running; no command takes effect after it stopped. */
    var alive: bool
    var now: nat

    /** What each checkpoint ever made was taken of. */
    ghost var captured: map<string, Checkpoint>
    ghost var used: set<string>
    /** The states the running computer has been in, oldest first. */
    ghost var moments: seq<Checkpoint>

    /** The commands issued so far. */
    ghost var trace: seq<Event>

    ghost function Moment(): Checkpoint
      reads this`container, this`volumes
    {
      Checkpoint(if container.Present? then container.files else map[],
                 if profileVolume == "" then None
                 else Some(if profileVolume in volumes then volumes[profileVolume] else map[]))
    }

    ghost predicate Tracked()
      reads this
    {
      && (container.Present? ==> moments != [] && moments[|moments| - 1] == Moment())
      && (container.Present? && profileVolume != "" ==> profileVolume in volumes)
    }

    ghost predicate Accounted()
      reads this
    {
      && !(IMAGE_PREFIX <= baseImage) && !(VOLUME_PREFIX <= profileVolume)
      && captured.Keys <= used
      && (forall id :: VolumeName(id) in volumes ==> id in used)
    }

    ghost predicate Valid()
      reads this
    {
      Safe(catalog, images, volumes, captured) && Accounted() && Tracked()
    }

    constructor (allowExecution: bool, canBuild: bool, baseImage: string, profileVolume: string, fates: nat -> Fate, guest: nat -> Writes)
      requires !(IMAGE_PREFIX <= baseImage) && !(VOLUME_PREFIX <= profileVolume)
      ensures Valid() && alive && catalog == Catalog([], "", "") && captured == map[] && trace == []
      ensures this.allowExecution == allowExecution && this.canBuild == canBuild
      ensures this.baseImage == baseImage && this.profileVolume == profileVolume && this.fates == fates && this.guest == guest
    {
      this.allowExecution, this.canBuild := allowExecution, canBuild;
      this.baseImage, this.profileVolume := baseImage, profileVolume;
      this.fates, this.guest, now := fates, guest, 0;
      catalog, images, volumes, container, alive := Catalog([], "", ""), map[], map[], Absent, true;
      captured, used, moments, trace := map[], {}, [], [];
    }

    // ----- commands: each keeps the computer valid, whatever becomes of it

    /** A command issued by a live process takes effect, and its success is seen. */
    ghost predicate Works(at: nat, live: bool) {
      live && fates(at).works
    }

    ghost predicate Sees(at: nat, live: bool) {
      live && fates(at).works && fates(at).reported && !fates(at).dies
    }

    /** The record of a command; a process that has stopped issues none. */
    ghost function Noted(before: seq<Event>, live: bool, command: Command, ok: bool): seq<Event> {
      if live then before + [Event(command, ok)] else before
    }

    /** Whether a command takes effect and whether its success is seen. */
    method Attempt() returns (works: bool, reported: bool)
      modifies this`alive, this`now
      ensures works == Works(old(now), old(alive)) && reported == Sees(old(now), old(alive))
      ensures alive == (old(alive) && !fates(old(now)).dies)
    {
      var fate := fates(now);
      works := alive && fate.works;
      alive := alive && !fate.dies;
      reported := works && alive && fate.reported;
      now := now + 1;
    }

    /** An answer from outside. */
    method Asked(question: Question) returns (yes: bool)
      requires Valid()
      modifies this`alive, this`now, this`trace
      ensures Valid() && (alive ==> old(alive)) && (yes ==> alive)
      ensures yes == Sees(old(now), old(alive)) && trace == Noted(old(trace), old(alive), Ask(question), yes)
    {
      hide Safe;
      var works, reported := Attempt();
      yes := reported;
      trace := Noted(trace, old(alive), Ask(question), yes);
    }

    /** The guest writes while it runs and is not paused. */
    method GuestWrites()
      requires Valid()
      modifies this`container, this`volumes, this`moments, this`now
      ensures Valid() && old(moments) <= moments
      ensures !(old(container).Present? && old(container).running && !old(container).paused)
          ==> container == old(container) && volumes == old(volumes) && moments == old(moments)
      ensures container.Present? == old(container).Present?
      ensures old(container).Absent? ==> Moment() == old(Moment())
      ensures container.Present? ==> container == old(container).(files := container.files)
      ensures forall name :: name != "" && name != profileVolume ==> Agrees(old(volumes), volumes, name)
      ensures old(container).Present? && old(container).running && !old(container).paused ==>
        && container.files == guest(old(now)).files && moments == old(moments) + [Moment()]
        && (profileVolume != "" ==> profileVolume in volumes && volumes[profileVolume] == guest(old(now)).profile)
    {
      if container.Present? && container.running && !container.paused {
        var writes := guest(now);
        container := container.(files := writes.files);
        if profileVolume != "" {
          ghost var before := volumes;
          volumes := volumes[profileVolume := writes.profile];
          OwnIsFree(catalog, images, before, images, volumes, captured, baseImage, profileVolume);
        }
        moments := moments + [Moment()];
      }
      now := now + 1;
    }

    /** docker commit, under an image name no entry uses. */
    method CommitImage(id: string) returns (ok: bool)
      requires Valid() && forall s :: s in catalog.snapshots ==> s.id != id
      modifies this`images, this`alive, this`now, this`trace
      ensures Valid() && (alive ==> old(alive)) && trace == Noted(old(trace), old(alive), Commit(ImageName(id)), ok)
      ensures ok == (container.Present? && Sees(old(now), old(alive))) && (ok ==> alive)
      ensures images == if container.Present? && Works(old(now), old(alive)) then old(images)[ImageName(id) := container.files] else old(images)
    {
      var works, reported := Attempt();
      if container.Present? && works {
        ghost var before := images;
        images := images[ImageName(id) := container.files];
        UnlistedIsFree(catalog, before, volumes, images, volumes, captured, id);
        ok := reported;
      } else {
        ok := false;
      }
      trace := Noted(trace, old(alive), Commit(ImageName(id)), ok);
    }

    /** docker rmi --force, of an image no entry uses. */
    method RemoveImage(id: string)
      requires Valid() && forall s :: s in catalog.snapshots ==> s.id != id
      modifies this`images, this`alive, this`now, this`trace
      ensures Valid() && (alive ==> old(alive))
      ensures exists ok :: trace == Noted(old(trace), old(alive), Rmi(ImageName(id)), ok)
      ensures images == if Works(old(now), old(alive)) then old(images) - {ImageName(id)} else old(images)
    {
      var works, reported := Attempt();
      if works {
        ghost var before := images;
        images := images - {ImageName(id)};
        UnlistedIsFree(catalog, before, volumes, images, volumes, captured, id);
      }
      trace := Noted(trace, old(alive), Rmi(ImageName(id)), reported);
    }

    /** docker volume create: an existing volume is left as it is. */
    method CreateVolume(volume: string) returns (ok: bool)
      requires Valid() && forall id :: VolumeName(id) == volume ==> id in used
      modifies this`volumes, this`alive, this`now, this`trace
      ensures Valid() && (alive ==> old(alive)) && trace == Noted(old(trace), old(alive), VolumeCreate(volume), ok)
      ensures volumes == if volume !in old(volumes) && Works(old(now), old(alive)) then old(volumes)[volume := map[]] else old(volumes)
      ensures ok == Sees(old(now), old(alive)) && (ok ==> alive && volume in volumes)
      ensures Moment() == old(Moment())
    {
      var works, reported := Attempt();
      ghost var before := volumes;
      if works && volume !in volumes {
        volumes := volumes[volume := map[]];
        StaysSafe(catalog, images, before, images, volumes, captured, captured);
      }
      ok := reported;
      trace := Noted(trace, old(alive), VolumeCreate(volume), ok);
    }

    /** docker volume rm --force, refused while the computer's container uses it. */
    method RemoveVolume(volume: string) returns (ghost removed: bool)
      requires Valid() && forall s :: s in catalog.snapshots ==> s.profile != volume
      modifies this`volumes, this`alive, this`now, this`trace
      ensures Valid() && (alive ==> old(alive))
      ensures exists ok :: trace == Noted(old(trace), old(alive), VolumeRm(volume), ok)
      ensures volumes == if removed then old(volumes) - {volume} else old(volumes)
      ensures removed == (Works(old(now), old(alive)) && !(container.Present? && volume == profileVolume))
    {
      var works, reported := Attempt();
      removed := works && !(container.Present? && volume == profileVolume);
      if works && !(container.Present? && volume == profileVolume) {
        ghost var before := volumes;
        volumes := volumes - {volume};
        StaysSafe(catalog, images, before, images, volumes, captured, captured);
      }
      trace := Noted(trace, old(alive), VolumeRm(volume), reported);
    }

    /** Unpacking one volume over another; cut short, it may leave anything there. */
    method CopyVolume(source: string, destination: string) returns (ok: bool)
      requires Valid() && source in volumes && source != destination
      requires forall s :: s in catalog.snapshots ==> s.profile != destination
      requires forall id :: VolumeName(id) == destination ==> id in used
      requires container.Present? ==> destination != profileVolume
      modifies this`volumes, this`alive, this`now, this`trace
      ensures Valid() && (alive ==> old(alive)) && trace == Noted(old(trace), old(alive), Copy(source, destination), ok)
      ensures forall name :: name != destination ==> Agrees(old(volumes), volumes, name)
      ensures ok == Sees(old(now), old(alive))
      ensures ok ==> alive && volumes == Unpacked(old(volumes), source, destination)
      ensures !Works(old(now), old(alive)) ==> volumes == old(volumes)
    {
      var left := guest(now).profile;
      var works, reported := Attempt();
      if works {
        ghost var before := volumes;
        volumes := if reported then Unpacked(volumes, source, destination) else volumes[destination := left];
        StaysSafe(catalog, images, before, images, volumes, captured, captured);
      }
      ok := reported;
      trace := Noted(trace, old(alive), Copy(source, destination), ok);
    }

    method PauseGuest() returns (ok: bool)
      requires Valid()
      modifies this`container, this`alive, this`now, this`trace
      ensures Valid() && (alive ==> old(alive)) && trace == Noted(old(trace), old(alive), Pause, ok)
      ensures ok == (CanPause(old(container)) && Sees(old(now), old(alive)))
      ensures container == if CanPause(old(container)) && Works(old(now), old(alive)) then old(container).(paused := true) else old(container)
      ensures ok ==> alive && container.Present? && container.running && container.paused
    {
      var works, reported := Attempt();
      if works && CanPause(container) {
        container := container.(paused := true);
        ok := reported;
      } else {
        ok := false;
      }
      trace := Noted(trace, old(alive), Pause, ok);
    }

    predicate CanPause(c: Container) {
      c.Present? && c.running && !c.paused
    }

    method Unpause() returns (ok: bool)
      requires Valid()
      modifies this`container, this`alive, this`now, this`trace
      ensures Valid() && (alive ==> old(alive)) && trace == Noted(old(trace), old(alive), Resume, ok)
      ensures ok == (old(container).Present? && old(container).paused && Sees(old(now), old(alive)))
      ensures container == if old(container).Present? && old(container).paused && Works(old(now), old(alive))
                           then old(container).(paused := false) else old(container)
      ensures ok ==> alive && container.Present? && !container.paused
    {
      var works, reported := Attempt();
      if works && container.Present? && container.paused {
        container := container.(paused := false);
        ok := reported;
      } else {
        ok := false;
      }
      trace := Noted(trace, old(alive), Resume, ok);
    }

    /** docker rm --force of the computer's container. */
    method RemoveContainer() returns (ok: bool)
      requires Valid()
      modifies this`container, this`alive, this`now, this`trace
      ensures Valid() && (alive ==> old(alive)) && trace == Noted(old(trace), old(alive), Rm, ok)
      ensures container == if Works(old(now), old(alive)) then Absent else old(container)
      ensures ok == Sees(old(now), old(alive)) && (ok ==> alive)
    {
      hide Safe;
      var works, reported := Attempt();
      if works {
        container := Absent;
      }
      ok := reported;
      trace := Noted(trace, old(alive), Rm, ok);
    }

    /** A profile volume that is not there yet is created empty. */
    method MountProfile()
      requires Valid() && container.Absent?
      modifies this`volumes
      ensures Valid() && Moment() == old(Moment())
      ensures profileVolume != "" ==> profileVolume in volumes
    {
      if profileVolume != "" && profileVolume !in volumes {
        ghost var before := volumes;
        volumes := volumes[profileVolume := map[]];
        OwnIsFree(catalog, images, before, images, volumes, captured, baseImage, profileVolume);
      }
    }

    /** docker run: the container starts with the image's files and the profile volume. */
    method RunContainer(image: string) returns (ok: bool)
      requires Valid()
      modifies this`container, this`volumes, this`moments, this`alive, this`now, this`trace
      ensures Valid() && (alive ==> old(alive)) && old(moments) <= moments && trace == Noted(old(trace), old(alive), Run(image), ok)
      ensures ok == (old(container).Absent? && image in images && Sees(old(now), old(alive)))
      ensures old(container).Absent? && image in images && Works(old(now), old(alive)) ==>
        container == Present(image, images[image], ok || fates(old(now)).comesUp, false)
      ensures ok ==> alive && container == Present(image, images[image], true, false)
      ensures ok ==> moments == old(moments) + [Moment()] && moments[|moments| - 1] == Moment()
      ensures ok ==> Moment().profile == old(Moment()).profile
    {
      hide Safe;
      var comesUp := fates(now).comesUp;
      var works, reported := Attempt();
      ok := false;
      if works && container.Absent? && image in images {
        MountProfile();
        container := Present(image, images[image], comesUp || reported, false);
        moments := moments + [Moment()];
        ok := reported;
      }
      trace := Noted(trace, old(alive), Run(image), ok);
    }

    /** docker build of the base image. */
    method BuildImage() returns (ok: bool)
      requires Valid()
      modifies this`images, this`alive, this`now, this`trace
      ensures Valid() && (alive ==> old(alive)) && trace == Noted(old(trace), old(alive), Build, ok)
      ensures ok == Sees(old(now), old(alive)) && (ok ==> alive && baseImage in images)
      ensures images == if Works(old(now), old(alive)) then old(images)[baseImage := guest(old(now)).files] else old(images)
    {
      var built := guest(now).files;
      var works, reported := Attempt();
      if works {
        ghost var before := images;
        images := images[baseImage := built];
        OwnIsFree(catalog, before, volumes, images, volumes, captured, baseImage, profileVolume);
      }
      ok := reported;
      trace := Noted(trace, old(alive), Build, ok);
    }

    /** Writing a temporary file and renaming it: the old catalogue or the new one. */
    method SaveCatalog(next: Catalog) returns (ok: bool)
      requires Valid() && Safe(next, images, volumes, captured)
      modifies this`catalog, this`alive, this`now, this`trace
      ensures Valid() && (alive ==> old(alive)) && trace == Noted(old(trace), old(alive), Save, ok)
      ensures catalog == if Works(old(now), old(alive)) then next else old(catalog)
      ensures ok == (Works(old(now), old(alive)) && !fates(old(now)).dies)
      ensures ok ==> alive && catalog == next
      ensures alive && !ok ==> catalog == old(catalog)
    {
      var works, reported := Attempt();
      if works {
        catalog := next;
      }
      ok := works && alive;
      trace := Noted(trace, old(alive), Save, ok);
    }

    /** Reading the catalogue file. */
    method LoadCatalog() returns (ok: bool)
      requires Valid()
      modifies this`alive, this`now, this`trace
      ensures Valid() && (ok ==> alive) && trace == Noted(old(trace), old(alive), Read, ok)
      ensures ok == Sees(old(now), old(alive)) && (alive ==> old(alive))
    {
      hide Safe;
      var works, reported := Attempt();
      ok := reported;
      trace := Noted(trace, old(alive), Read, ok);
    }

    // ----- operations

    ghost predicate Fresh(id: string)
      reads this
    {
      IsId(id) && id !in used
    }

    lemma FreshIsUnlisted(id: string)
      requires Valid() && Fresh(id)
      ensures forall s :: s in catalog.snapshots ==> s.id != id
      ensures VolumeName(id) !in volumes && VolumeName(id) != profileVolume
    {
      hide ImageName, VolumeName;
      PrefixesMark(id);
      forall s | s in catalog.snapshots
        ensures s.id != id
      {
        assert Kept(s, images, volumes, captured);
      }
    }

    /** Copying a volume into another, which is created if it is not there; a copy that failed is
        removed again. */
    method CloneVolume(source: string, destination: string) returns (ok: bool)
      requires Valid() && source in volumes && source != destination
      requires forall s :: s in catalog.snapshots ==> s.profile != destination
      requires forall id :: VolumeName(id) == destination ==> id in used
      requires container.Present? ==> destination != profileVolume
      modifies this`volumes, this`alive, this`now, this`trace
      ensures Valid() && (alive ==> old(alive)) && old(trace) <= trace
      ensures forall name :: name != destination ==> Agrees(old(volumes), volumes, name)
      ensures ok ==> alive && volumes == Unpacked(old(volumes), source, destination) && Well(old(trace), trace, false)
      ensures alive && !ok ==> Blamed(old(trace), trace, OfCreate(CannotCopy)) && Blamed(old(trace), trace, OfRestore(CannotReplaceProfile))
    {
      hide VolumeName, Valid, Well, Blamed, Explains, IsNeeded;
      ok := CreateVolume(destination);
      CopyEvent(old(trace), VolumeCreate(destination), ok);
      if !ok { return; }
      ghost var first, created := trace, volumes;
      ok := CopyVolume(source, destination);
      CopyEvent(first, Copy(source, destination), ok);
      ghost var copied := volumes;
      OthersAgree(old(volumes), created, copied, destination);
      if ok {
        WellThen(old(trace), first, trace, false);
      } else {
        ghost var second := trace;
        var removed := RemoveVolume(destination);
        OthersAgree(old(volumes), copied, volumes, destination);
        if alive {
          BlamedThen(old(trace), first, second, trace, OfCreate(CannotCopy));
          BlamedThen(old(trace), first, second, trace, OfRestore(CannotReplaceProfile));
        }
      }
    }

    lemma OthersAgree(a: map<string, Files>, b: map<string, Files>, c: map<string, Files>, changed: string)
      requires forall name :: name != changed ==> Agrees(a, b, name)
      requires forall name :: name != changed ==> Agrees(b, c, name)
      ensures forall name :: name != changed ==> Agrees(a, c, name)
    {
      forall name | name != changed
        ensures Agrees(a, c, name)
      {
        assert Agrees(a, b, name) && Agrees(b, c, name);
      }
    }

    /** Copying the profile into a new volume. */
    method CloneProfile(id: string) returns (ok: bool)
      requires Valid() && id in used && profileVolume != "" && profileVolume in volumes
      requires VolumeName(id) !in volumes && forall s :: s in catalog.snapshots ==> s.id != id
      modifies this`volumes, this`alive, this`now, this`trace
      ensures Valid() && (alive ==> old(alive)) && Moment() == old(Moment()) && old(trace) <= trace
      ensures ok ==> alive && volumes == old(volumes)[VolumeName(id) := old(volumes)[profileVolume]]
      ensures ok ==> Well(old(trace), trace, false)
      ensures alive && !ok ==> Blamed(old(trace), trace, OfCreate(CannotCopy))
    {
      hide ImageName, VolumeName, Kept, Well, Blamed, Explains, IsNeeded;
      UnlistedVolume(catalog, id);
      PrefixesMark(id);
      VolumesAreApart(id, used);
      ok := CloneVolume(profileVolume, VolumeName(id));
      assert Agrees(old(volumes), volumes, profileVolume);
      var profile := old(volumes)[profileVolume];
      assert map[] + profile == profile;
    }

    lemma CopyEvent(before: seq<Event>, c: Command, ok: bool)
      requires c.VolumeCreate? || c.Copy?
      ensures !ok ==> Blamed(before, before + [Event(c, ok)], OfCreate(CannotCopy)) && Blamed(before, before + [Event(c, ok)], OfRestore(CannotReplaceProfile))
      ensures ok ==> Well(before, before + [Event(c, ok)], false)
    {
      OneEvent(before, c, ok, OfCreate(CannotCopy));
      OneEvent(before, c, ok, OfRestore(CannotReplaceProfile));
    }

    ghost method Use(id: string)
      requires Valid()
      modifies this`used
      ensures Valid() && used == old(used) + {id}
    {
      hide ImageName, VolumeName, Safe;
      used := used + {id};
    }

    lemma LastMoment()
      requires Valid() && container.Present?
      ensures moments != [] && moments[|moments| - 1] == Moment()
      ensures profileVolume != "" ==> profileVolume in volumes
    {
      hide Safe;
    }

    /** Committing and copying the paused computer. */
    method CapturePaused(id: string) returns (failure: Option<CreateError>)
      requires Valid() && id in used && container.Present? && container.running && container.paused
      requires VolumeName(id) !in volumes && VolumeName(id) != profileVolume && forall s :: s in catalog.snapshots ==> s.id != id
      modifies this`images, this`volumes, this`container, this`moments, this`alive, this`now, this`trace
      ensures Valid() && (alive ==> old(alive)) && moments == old(moments) && old(trace) <= trace
      ensures alive && failure == Some(CannotCopy) ==> EndsIn(old(trace), trace, [Rmi(ImageName(id))])
      ensures failure.Some? ==> failure.value in {CannotCommit, CannotCopy}
      ensures alive && failure.Some? ==> Blamed(old(trace), trace, OfCreate(failure.value))
      ensures failure.None? ==> Well(old(trace), trace, false)
      ensures failure.None? ==>
        && alive && container == old(container)
        && ImageName(id) in images && images[ImageName(id)] == container.files
      ensures failure.None? && profileVolume != "" ==>
        && profileVolume in old(volumes) && VolumeName(id) in volumes
        && volumes[VolumeName(id)] == old(volumes)[profileVolume]
    {
      hide Valid, ImageName, VolumeName, Well, Blamed, Explains, IsNeeded, EndsIn;
      GuestWrites();
      var committed := CommitImage(id);
      OneEvent(old(trace), Commit(ImageName(id)), committed, OfCreate(CannotCommit));
      CommitExplains(id);
      if !committed { return Some(CannotCommit); }
      GuestWrites();
      if profileVolume != "" {
        ghost var first := trace;
        LastMoment();
        var copied := CopyProfile(id);
        EndsInEarlier(old(trace), first, trace, [Rmi(ImageName(id))]);
        if !copied {
          if alive { BlamedThen(old(trace), first, trace, trace, OfCreate(CannotCopy)); }
          return Some(CannotCopy);
        }
        WellThen(old(trace), first, trace, false);
      }
      failure := None;
    }

    /** Copying the profile of a committed computer; when that fails the image is removed. */
    method CopyProfile(id: string) returns (ok: bool)
      requires Valid() && id in used && profileVolume != "" && profileVolume in volumes
      requires VolumeName(id) !in volumes && forall s :: s in catalog.snapshots ==> s.id != id
      modifies this`images, this`volumes, this`alive, this`now, this`trace
      ensures Valid() && (alive ==> old(alive)) && old(trace) <= trace
      ensures ok ==> alive && images == old(images) && Well(old(trace), trace, false)
      ensures ok ==> volumes == old(volumes)[VolumeName(id) := old(volumes)[profileVolume]]
      ensures alive && !ok ==> Blamed(old(trace), trace, OfCreate(CannotCopy)) && EndsIn(old(trace), trace, [Rmi(ImageName(id))])
    {
      hide Valid, ImageName, VolumeName, Well, Blamed, Explains, IsNeeded;
      ok := CloneProfile(id);
      if !ok {
        ghost var first := trace;
        RemoveImage(id);
        assert alive ==> trace[|trace| - 1].command == Rmi(ImageName(id));
        if alive { BlamedThen(old(trace), old(trace), first, trace, OfCreate(CannotCopy)); }
      }
    }

    lemma CommitExplains(id: string)
      ensures Explains(Commit(ImageName(id)), OfCreate(CannotCommit))
    {}

    /** From the paused computer to the resume after the copies, which is tried again when it
        fails. */
    method CaptureAndResume(id: string) returns (failure: Option<CreateError>)
      requires Valid() && id in used && container.Present? && container.running && container.paused
      requires VolumeName(id) !in volumes && VolumeName(id) != profileVolume && forall s :: s in catalog.snapshots ==> s.id != id
      modifies this`images, this`volumes, this`container, this`moments, this`alive, this`now, this`trace
      ensures Valid() && (alive ==> old(alive)) && moments == old(moments) && old(trace) <= trace
      ensures alive && failure == Some(CannotCopy) ==> EndsIn(old(trace), trace, [Rmi(ImageName(id)), Resume])
      ensures alive && failure.Some? ==> EndsIn(old(trace), trace, [Resume])
      ensures alive && failure == Some(CannotResume) ==> EndsIn(old(trace), trace, [Resume, Resume])
      ensures failure.Some? ==> failure.value in {CannotCommit, CannotCopy, CannotResume}
      ensures alive && failure.Some? ==> Blamed(old(trace), trace, OfCreate(failure.value))
      ensures failure.None? ==> Well(old(trace), trace, false)
      ensures failure.None? ==> container.Present? && !container.paused && Taken(id, old(Moment()))
    {
      hide Valid, ImageName, VolumeName, EndsIn, Kept, Well, Blamed, Explains, IsNeeded;
      failure := CapturePaused(id);
      ghost var cleaned := trace;
      var resumed := Unpause();
      ResumeEvent(cleaned, resumed);
      if alive {
        ResumesAfter(old(trace), cleaned, Rmi(ImageName(id)), Event(Resume, resumed));
        if failure.Some? { BlamedThen(old(trace), old(trace), cleaned, trace, OfCreate(failure.value)); }
      }
      if failure.None? && !resumed {
        ghost var once := trace;
        resumed := Unpause();
        if alive {
          ResumesAfter(old(trace), once, Resume, Event(Resume, resumed));
          BlamedThen(old(trace), cleaned, once, trace, OfCreate(CannotResume));
        }
        return Some(CannotResume);
      }
      if failure.None? { WellThen(old(trace), cleaned, trace, false); }
    }

    lemma ResumeEvent(before: seq<Event>, ok: bool)
      ensures !ok ==> Blamed(before, before + [Event(Resume, ok)], OfCreate(CannotResume))
      ensures Well(before, before + [Event(Resume, ok)], false) && Well(before, before + [Event(Resume, ok)], true)
    {
      OneEvent(before, Resume, ok, OfCreate(CannotResume));
    }

    /** The pause, commit, copy and resume of a new checkpoint. What is taken is the
        state of the computer at one moment. */
    method Capture(id: string) returns (failure: Option<CreateError>, ghost taken: Checkpoint)
      requires Valid() && Fresh(id)
      modifies this`images, this`volumes, this`container, this`moments, this`alive, this`used, this`now, this`trace
      ensures Valid() && (alive ==> old(alive)) && old(moments) <= moments && old(trace) <= trace
      ensures used == old(used) || used == old(used) + {id}
      ensures alive && failure == Some(CannotCopy) ==> EndsIn(old(trace), trace, [Rmi(ImageName(id)), Resume])
      ensures alive && failure.Some? && failure != Some(CannotPause) ==> EndsIn(old(trace), trace, [Resume])
      ensures alive && failure.Some? ==> Blamed(old(trace), trace, OfCreate(failure.value))
      ensures failure.None? ==> Well(old(trace), trace, false)
      ensures failure.Some? ==> failure.value in {CannotPause, CannotCommit, CannotCopy, CannotResume}
      ensures failure.None? ==> id in used && container.Present? && !container.paused && Taken(id, taken)
      ensures failure.None? ==> exists k :: 0 <= k < |moments| && old(|moments|) - 1 <= k && moments[k] == taken
    {
      hide Valid, ImageName, VolumeName, EndsIn, Taken, Well, Blamed, Explains, IsNeeded;
      taken := Checkpoint(map[], None);
      var ignored := Unpause();
      ghost var first := trace;
      ResumeEvent(old(trace), ignored);
      GuestWrites();
      var paused := PauseGuest();
      PauseEvent(first, paused);
      if !paused {
        if alive { BlamedThen(old(trace), first, trace, trace, OfCreate(CannotPause)); }
        return Some(CannotPause), taken;
      }
      WellThen(old(trace), first, trace, false);
      FreshIsUnlisted(id);
      Use(id);
      LastMoment();
      taken := Moment();
      ghost var at, second := |moments| - 1, trace;
      assert moments[at] == taken;
      failure := CaptureAndResume(id);
      EndsInEarlier(old(trace), second, trace, [Rmi(ImageName(id)), Resume]);
      EndsInEarlier(old(trace), second, trace, [Resume]);
      if failure.None? {
        WellThen(old(trace), second, trace, false);
      } else if alive {
        BlamedThen(old(trace), second, trace, trace, OfCreate(failure.value));
      }
    }

    lemma PauseEvent(before: seq<Event>, ok: bool)
      ensures !ok ==> Blamed(before, before + [Event(Pause, ok)], OfCreate(CannotPause))
      ensures ok ==> Well(before, before + [Event(Pause, ok)], false)
    {
      OneEvent(before, Pause, ok, OfCreate(CannotPause));
    }

    ghost predicate Taken(id: string, taken: Checkpoint)
      reads this
    {
      && ImageName(id) in images && images[ImageName(id)] == taken.files
      && (if profileVolume == "" then taken.profile.None?
          else VolumeName(id) in volumes && taken.profile == Some(volumes[VolumeName(id)]))
    }

    /** Writing the new entry to the catalogue. */
    method Record(item: Snapshot, ghost taken: Checkpoint) returns (ok: bool)
      requires Valid() && WellNamed(item) && Taken(item.id, taken) && item.id in used
      requires item.profile == if profileVolume == "" then "" else VolumeName(item.id)
      requires forall s :: s in catalog.snapshots ==> s.id != item.id
      requires |catalog.snapshots| < MAX_SNAPSHOTS && item.id !in captured
      modifies this`captured, this`catalog, this`alive, this`now, this`trace
      ensures Valid() && (alive ==> old(alive))
      ensures captured == old(captured)[item.id := taken] && trace == Noted(old(trace), old(alive), Save, ok)
      ensures ok ==> alive && catalog == old(catalog).(snapshots := [item] + old(catalog).snapshots)
      ensures alive && !ok ==> catalog == old(catalog)
    {
      hide ImageName, VolumeName, WellFormed;
      ghost var before := captured;
      captured := captured[item.id := taken];
      NamesAreApart(item.id, item.id);
      StaysSafe(catalog, images, volumes, images, volumes, before, captured);
      ListedIsSafe(catalog, images, volumes, captured, item);
      hide Safe;
      ok := SaveCatalog(catalog.(snapshots := [item] + catalog.snapshots));
    }

    lemma FreshIsUncaptured(id: string)
      requires Valid() && Fresh(id)
      ensures id !in captured && forall s :: s in catalog.snapshots ==> s.id != id
    {
      FreshIsUnlisted(id);
      hide Safe;
    }

    method CreateSnapshot(name: string, id: string) returns (r: CreateResult)
      requires Valid() && Fresh(id)
      modifies this
      ensures Valid() && (alive ==> old(alive)) && Extends(old(captured), captured) && old(moments) <= moments && old(trace) <= trace
      ensures used == old(used) || used == old(used) + {id}
      ensures r.Created? ==> Well(old(trace), trace, false)
      ensures alive && r.NotCreated? && r.error !in {ExecutionDisabled, BadName, Full} ==> Blamed(old(trace), trace, OfCreate(r.error))
      ensures r.Created? ==>
        && allowExecution && 0 < |TrimSpace(name)| <= 80
        && r.item == Snapshot(id, TrimSpace(name), ImageName(id), if profileVolume == "" then "" else VolumeName(id))
        && catalog == old(catalog).(snapshots := [r.item] + old(catalog).snapshots)
        && container.Present? && !container.paused
      ensures r.Created? ==> id in captured && exists k :: 0 <= k < |moments| && old(|moments|) - 1 <= k && moments[k] == captured[id]
      ensures alive && r.NotCreated? ==> catalog == old(catalog)
      ensures alive && r == NotCreated(CannotCopy) ==> EndsIn(old(trace), trace, [Rmi(ImageName(id)), Resume])
      ensures alive && r.NotCreated? && r.error in {CannotCommit, CannotCopy, CannotResume} ==> EndsIn(old(trace), trace, [Resume])
      ensures r == NotCreated(ExecutionDisabled) <==> !allowExecution
      ensures r == NotCreated(BadName) <==> allowExecution && !(0 < |TrimSpace(name)| <= 80)
      ensures r == NotCreated(Full) ==> old(|catalog.snapshots|) >= 8
      ensures old(|catalog.snapshots|) >= 8 ==> r.NotCreated? && catalog == old(catalog) && images == old(images)
    {
      hide Valid, ImageName, VolumeName, TrimSpace, IsId, EndsIn, Well, Blamed, Explains, IsNeeded;
      var trimmed := TrimSpace(name);
      if !allowExecution { return NotCreated(ExecutionDisabled); }
      if trimmed == "" || |trimmed| > MAX_NAME { return NotCreated(BadName); }
      var failure := BeforeCapture();
      if failure.Some? { return NotCreated(failure.value); }
      ghost var first := trace;
      r := CaptureAndRecord(trimmed, id);
      EndsInEarlier(old(trace), first, trace, [Rmi(ImageName(id)), Resume]);
      EndsInEarlier(old(trace), first, trace, [Resume]);
      if r.Created? {
        WellThen(old(trace), first, trace, false);
      } else if alive {
        BlamedThen(old(trace), first, trace, trace, OfCreate(r.error));
      }
    }

    /** What is asked before a checkpoint is taken: whether the computer runs, the catalogue, and
        an id. */
    method BeforeCapture() returns (failure: Option<CreateError>)
      requires Valid()
      modifies this`container, this`volumes, this`moments, this`alive, this`now, this`trace
      ensures Valid() && (alive ==> old(alive)) && old(moments) <= moments && old(trace) <= trace
      ensures failure.Some? ==> failure.value in {NotRunning, CannotRead, Full, NoRandomness}
      ensures failure == Some(Full) ==> |catalog.snapshots| >= 8
      ensures failure.None? ==> |catalog.snapshots| < 8 && Well(old(trace), trace, false)
      ensures alive && failure.Some? && failure != Some(Full) ==> Blamed(old(trace), trace, OfCreate(failure.value))
    {
      hide Valid, Well, Blamed, Explains, IsNeeded;
      GuestWrites();
      var running := Asked(IsRunning);
      AskEvent(old(trace), IsRunning, running);
      if !running { return Some(NotRunning); }
      ghost var first := trace;
      var loaded := LoadCatalog();
      ReadEvent(first, loaded);
      if !loaded {
        if alive { BlamedThen(old(trace), first, trace, trace, OfCreate(CannotRead)); }
        return Some(CannotRead);
      }
      WellThen(old(trace), first, trace, false);
      if |catalog.snapshots| >= MAX_SNAPSHOTS { return Some(Full); }
      ghost var second := trace;
      var random := Asked(HasRandom);
      AskEvent(second, HasRandom, random);
      if !random {
        if alive { BlamedThen(old(trace), second, trace, trace, OfCreate(NoRandomness)); }
        return Some(NoRandomness);
      }
      WellThen(old(trace), second, trace, false);
      failure := None;
    }

    lemma AskEvent(before: seq<Event>, question: Question, ok: bool)
      ensures !ok && question == IsRunning ==> Blamed(before, before + [Event(Ask(question), ok)], OfCreate(NotRunning))
      ensures !ok && question == HasRandom ==> Blamed(before, before + [Event(Ask(question), ok)], OfCreate(NoRandomness))
      ensures !ok && question == ClearsToken ==> Blamed(before, before + [Event(Ask(question), ok)], OfStop)
      ensures !ok && question == KeepsToken ==> Blamed(before, before + [Event(Ask(question), ok)], OfStart(CannotStart))
      ensures !ok && question == IsReady ==> Blamed(before, before + [Event(Ask(question), ok)], OfStart(NotReady))
      ensures ok ==> Well(before, before + [Event(Ask(question), ok)], false) && Well(before, before + [Event(Ask(question), ok)], true)
    {
      OneEvent(before, Ask(question), ok, OfCreate(NotRunning));
      OneEvent(before, Ask(question), ok, OfCreate(NoRandomness));
      OneEvent(before, Ask(question), ok, OfStop);
      OneEvent(before, Ask(question), ok, OfStart(CannotStart));
      OneEvent(before, Ask(question), ok, OfStart(NotReady));
    }

    lemma ReadEvent(before: seq<Event>, ok: bool)
      ensures !ok ==> Blamed(before, before + [Event(Read, ok)], OfCreate(CannotRead)) && Blamed(before, before + [Event(Read, ok)], OfRestore(RestoreCannotRead))
      ensures Well(before, before, true) && Well(before, before + [Event(Read, ok)], true) && (ok ==> Well(before, before + [Event(Read, ok)], false))
    {
      OneEvent(before, Read, ok, OfCreate(CannotRead));
      OneEvent(before, Read, ok, OfRestore(RestoreCannotRead));
    }

    lemma SaveEvent(before: seq<Event>, ok: bool)
      ensures !ok ==> Blamed(before, before + [Event(Save, ok)], OfCreate(CannotSave)) && Blamed(before, before + [Event(Save, ok)], OfRestore(RestoreCannotSave))
      ensures ok ==> Well(before, before + [Event(Save, ok)], false)
    {
      OneEvent(before, Save, ok, OfCreate(CannotSave));
      OneEvent(before, Save, ok, OfRestore(RestoreCannotSave));
    }

    /** A new checkpoint once everything is checked. */
    method CaptureAndRecord(name: string, id: string) returns (r: CreateResult)
      requires Valid() && Fresh(id) && |catalog.snapshots| < MAX_SNAPSHOTS
      modifies this
      ensures Valid() && (alive ==> old(alive)) && Extends(old(captured), captured) && old(moments) <= moments && old(trace) <= trace
      ensures used == old(used) || used == old(used) + {id}
      ensures r.Created? ==> Well(old(trace), trace, false)
      ensures alive && r.NotCreated? ==> Blamed(old(trace), trace, OfCreate(r.error))
      ensures r.Created? ==>
        && r.item == Snapshot(id, name, ImageName(id), if profileVolume == "" then "" else VolumeName(id))
        && catalog == old(catalog).(snapshots := [r.item] + old(catalog).snapshots)
        && container.Present? && !container.paused
      ensures r.Created? ==> id in captured && exists k :: 0 <= k < |moments| && old(|moments|) - 1 <= k && moments[k] == captured[id]
      ensures alive && r.NotCreated? ==> catalog == old(catalog)
      ensures alive && r == NotCreated(CannotCopy) ==> EndsIn(old(trace), trace, [Rmi(ImageName(id)), Resume])
      ensures alive && r.NotCreated? && r.error in {CannotCommit, CannotCopy, CannotResume} ==> EndsIn(old(trace), trace, [Resume])
      ensures r.NotCreated? ==> r.error in {CannotPause, CannotCommit, CannotCopy, CannotResume, CannotSave}
    {
      hide Valid, ImageName, VolumeName, IsId, EndsIn, Well, Blamed, Explains, IsNeeded;
      FreshIsUncaptured(id);
      var failure, taken := Capture(id);
      if failure.Some? { return NotCreated(failure.value); }
      var item := Snapshot(id, name, ImageName(id), if profileVolume == "" then "" else VolumeName(id));
      ghost var first := trace;
      var saved := Record(item, taken);
      SaveEvent(first, saved);
      if !saved {
        if alive { BlamedThen(old(trace), first, trace, trace, OfCreate(CannotSave)); }
        return NotCreated(CannotSave);
      }
      WellThen(old(trace), first, trace, false);
      r := Created(item);
    }

    // Removing the profile volume and copying a checkpoint's profile in its place. A
    // removal that fails is ignored, and the copy then lands on top of what was there.
    method ReplaceProfile(s: Snapshot) returns (ok: bool, ghost removed: bool)
      requires Valid() && s in catalog.snapshots && s.profile != "" && profileVolume != "" && container.Absent?
      modifies this`volumes, this`alive, this`now, this`trace
      ensures Valid() && (alive ==> old(alive)) && old(trace) <= trace
      ensures ok ==> Well(old(trace), trace, false)
      ensures alive && !ok ==> Blamed(old(trace), trace, OfRestore(CannotReplaceProfile))
      ensures ok ==> alive && s.id in captured && captured[s.id].profile.Some? && profileVolume in volumes
      ensures ok ==> Within(captured[s.id].profile.value, volumes[profileVolume])
      ensures ok && removed ==> volumes[profileVolume] == captured[s.id].profile.value
      ensures ok && !removed ==> volumes[profileVolume] == FilesIn(old(volumes), profileVolume) + captured[s.id].profile.value
      ensures ok && !removed ==> (volumes[profileVolume] == captured[s.id].profile.value
        <==> forall path :: path in FilesIn(old(volumes), profileVolume) ==> path in captured[s.id].profile.value)
    {
      hide ImageName, VolumeName, Well, Blamed, Explains, IsNeeded;
      ProfileIsUnlisted(s);
      hide Safe, Accounted, Tracked;
      removed := RemoveVolume(profileVolume);
      ghost var first, base := trace, FilesIn(volumes, profileVolume);
      TidyEvent(old(trace), VolumeRm(profileVolume), first);
      ProfileIsKept(s);
      ok := CloneVolume(s.profile, profileVolume);
      if ok {
        ProfileIsKept(s);
        assert base == if removed then map[] else FilesIn(old(volumes), profileVolume);
        OverlayIsExact(base, captured[s.id].profile.value);
        WellThen(old(trace), first, trace, false);
      } else if alive {
        BlamedThen(old(trace), first, trace, trace, OfRestore(CannotReplaceProfile));
      }
    }

    lemma TidyEvent(before: seq<Event>, c: Command, after: seq<Event>)
      requires c.VolumeRm? && (after == before || exists ok :: after == before + [Event(c, ok)])
      ensures Well(before, after, false)
    {}

    lemma ProfileIsKept(s: Snapshot)
      requires Valid() && s in catalog.snapshots && s.profile != ""
      ensures s.id in captured && s.profile in volumes && captured[s.id].profile == Some(volumes[s.profile])
    {
      assert Kept(s, images, volumes, captured);
    }

    lemma ProfileIsUnlisted(s: Snapshot)
      requires Valid() && s in catalog.snapshots && s.profile != ""
      ensures forall other :: other in catalog.snapshots ==> other.profile != "" ==> other.profile != profileVolume
      ensures forall id :: VolumeName(id) != profileVolume
      ensures s.profile != profileVolume
    {
      hide ImageName, VolumeName;
      forall other | other in catalog.snapshots && other.profile != ""
        ensures other.profile != profileVolume
      {
        assert WellNamed(other);
        PrefixesMark(other.id);
      }
      forall id
        ensures VolumeName(id) != profileVolume
      {
        PrefixesMark(id);
      }
    }

    lemma OwnVolumeIsFree()
      requires Valid() && profileVolume != ""
      ensures forall id :: VolumeName(id) != profileVolume
    {
      hide VolumeName, Safe;
      forall id
        ensures VolumeName(id) != profileVolume
      {
        PrefixesMark(id);
      }
    }

    /** docker image inspect. */
    method InspectImage(image: string) returns (ok: bool)
      requires Valid()
      modifies this`alive, this`now, this`trace
      ensures Valid() && (alive ==> old(alive)) && trace == Noted(old(trace), old(alive), Inspect(image), ok)
      ensures ok == (image in images && Sees(old(now), old(alive))) && (ok ==> alive)
    {
      hide Safe;
      var works, reported := Attempt();
      ok := reported && image in images;
      trace := Noted(trace, old(alive), Inspect(image), ok);
    }

    /** The image to run; every call reads the catalogue file again. */
    method AskRunImage() returns (image: string, ghost read: bool)
      requires Valid()
      modifies this`alive, this`now, this`trace
      ensures Valid() && (alive ==> old(alive)) && trace == Noted(old(trace), old(alive), Read, read)
      ensures image == ImageRead(catalog, baseImage, read) && read == Sees(old(now), old(alive))
    {
      hide Valid;
      var loaded := LoadCatalog();
      read := loaded;
      image := if loaded then RunImage(catalog, baseImage) else baseImage;
    }

    /** What it means that the image of a checkpoint is reported missing: one is active and
        its image is there, and either it or the base image is named. */
    ghost predicate ReportedMissing(image: string)
      reads this
    {
      && catalog.activeId != "" && catalog.activeImage in images && catalog.activeImage != baseImage
      && (image == catalog.activeImage || image == baseImage)
    }

    /** The volume and the image a start needs. Whether the image is there, whether it is the
        base image and what the error calls it are three readings of the catalogue. */
    method PrepareStart() returns (failure: Option<StartError>)
      requires Valid()
      modifies this`images, this`volumes, this`alive, this`now, this`trace
      ensures Valid() && (alive ==> old(alive)) && Moment() == old(Moment()) && old(trace) <= trace
      ensures failure.Some? && failure.value.CheckpointMissing? ==> ReportedMissing(failure.value.image)
      ensures failure.None? || failure.value.NoVolume? || failure.value.CheckpointMissing? || failure.value.CannotBuild?
      ensures failure.None? ==> Well(old(trace), trace, true) && (profileVolume != "" ==> profileVolume in volumes)
      ensures failure.None? ==> HasImage(old(trace), trace)
      ensures alive && failure.Some? ==> Blamed(old(trace), trace, OfStart(failure.value))
    {
      hide ImageName, VolumeName, TrimSpace, Safe, RunImage, ImageRead, Well, Blamed, Explains, IsNeeded;
      ghost var read;
      NothingIssued(trace);
      if profileVolume != "" {
        OwnVolumeIsFree();
        var created := CreateVolume(profileVolume);
        StartEvent(old(trace), VolumeCreate(profileVolume), created);
        if !created { return Some(NoVolume); }
      }
      ghost var first := trace;
      var image;
      image, read := AskRunImage();
      ReadEvent(first, read);
      WellThen(old(trace), first, trace, true);
      ghost var second := trace;
      var present := InspectImage(image);
      StartEvent(second, Inspect(image), present);
      WellThen(old(trace), second, trace, true);
      if !present {
        failure := BuildBase(second, image);
        if failure.Some? {
          if alive { BlamedThen(old(trace), second, trace, trace, OfStart(failure.value)); }
        } else {
          WellThen(old(trace), second, trace, true);
        }
        return;
      }
      failure := None;
    }

    lemma NothingIssued(before: seq<Event>)
      ensures Well(before, before, true) && Well(before, before, false)
    {}

    lemma StartEvent(before: seq<Event>, c: Command, ok: bool)
      ensures !ok && c.VolumeCreate? ==> Blamed(before, before + [Event(c, ok)], OfStart(NoVolume))
      ensures !ok && c.Inspect? ==>
        Blamed(before, before + [Event(c, ok)], OfStart(CannotBuild)) && forall image :: Blamed(before, before + [Event(c, ok)], OfStart(CheckpointMissing(image)))
      ensures !ok && c.Build? ==> Blamed(before, before + [Event(c, ok)], OfStart(CannotBuild))
      ensures !ok && c.Run? ==> Blamed(before, before + [Event(c, ok)], OfStart(CannotStart))
      ensures Well(before, before, true) && (ok || c.Inspect? ==> Well(before, before + [Event(c, ok)], true))
    {
      OneEvent(before, c, ok, OfStart(NoVolume));
      OneEvent(before, c, ok, OfStart(CannotBuild));
      OneEvent(before, c, ok, OfStart(CannotStart));
      forall image
        ensures !ok && c.Inspect? ==> Blamed(before, before + [Event(c, ok)], OfStart(CheckpointMissing(image)))
      {
        OneEvent(before, c, ok, OfStart(CheckpointMissing(image)));
      }
    }

    /** After an inspection that failed: an error when the image is a checkpoint's, and
        otherwise the base image is built. */
    method BuildBase(ghost before: seq<Event>, inspected: string) returns (failure: Option<StartError>)
      requires Valid() && before <= trace && Well(before, trace, true)
      requires alive ==> Blamed(before, trace, OfStart(CannotBuild)) && forall image :: Blamed(before, trace, OfStart(CheckpointMissing(image)))
      modifies this`images, this`alive, this`now, this`trace
      ensures Valid() && (alive ==> old(alive)) && before <= trace
      ensures failure.Some? && failure.value.CheckpointMissing? ==> ReportedMissing(failure.value.image)
      ensures failure.None? || failure.value.CheckpointMissing? || failure.value.CannotBuild?
      ensures failure.None? ==> Well(before, trace, true) && baseImage in images && canBuild && HasImage(before, trace)
      ensures alive && failure.Some? && failure.value.CheckpointMissing? ==>
        EndsIn(old(trace), trace, [Read, Read]) && |trace| == |old(trace)| + 2
      ensures alive && failure.Some? ==> Blamed(before, trace, OfStart(failure.value))
      ensures failure == Some(CannotBuild) && alive && canBuild ==> !trace[|trace| - 1].ok && trace[|trace| - 1].command == Build
    {
      hide ImageName, VolumeName, TrimSpace, Safe, RunImage, ImageRead, Well, Blamed, Explains, IsNeeded;
      ghost var read;
      var image;
      image, read := AskRunImage();
      ReadEvent(old(trace), read);
      WellThen(before, old(trace), trace, true);
      if image != baseImage {
        RunImageIsKept(catalog, images, volumes, captured, baseImage, read);
        image, read := AskRunImage();
        RunImageIsKept(catalog, images, volumes, captured, baseImage, read);
        failure := Some(CheckpointMissing(image));
        if alive { BlamedThen(before, before, old(trace), trace, OfStart(CheckpointMissing(image))); }
        return;
      }
      ghost var asked := trace;
      if !canBuild {
        if alive { BlamedThen(before, before, old(trace), trace, OfStart(CannotBuild)); }
        return Some(CannotBuild);
      }
      var built := BuildImage();
      StartEvent(asked, Build, built);
      if !built {
        if alive { BlamedThen(before, asked, trace, trace, OfStart(CannotBuild)); }
        return Some(CannotBuild);
      }
      WellThen(before, asked, trace, true);
      failure := None;
    }

    /** Running a new container and waiting for it; one that does not get ready is
        removed again. */
    method StartFresh() returns (r: StartResult, ghost read: bool)
      requires Valid() && allowExecution
      modifies this`images, this`volumes, this`container, this`moments, this`alive, this`now, this`trace
      ensures Valid() && (alive ==> old(alive)) && old(moments) <= moments && !r.AlreadyReady? && old(trace) <= trace
      ensures r.Started? ==> container.Present? && container.image == ImageRead(catalog, baseImage, read)
      ensures r.Started? ==> container.image in images
      ensures r.Started? ==> Reached(moments, old(|moments|), Checkpoint(images[container.image], old(Moment()).profile))
      ensures r.NotStarted? && r.error.CheckpointMissing? ==> ReportedMissing(r.error.image)
      ensures r != NotStarted(StartDisabled) && r != NotStarted(Unavailable) && r != NotStarted(CannotReplace)
      ensures TellsStart(old(trace), trace, r, alive, ImageRead(catalog, baseImage, read))
    {
      hide Valid, ImageName, VolumeName, RunImage, ImageRead, Moment, Well, Blamed, Explains, IsNeeded, Reached;
      hide HasImage, Launched, StopTried;
      read := false;
      var failure := PrepareStart();
      if failure.Some? { return NotStarted(failure.value), read; }
      assert Moment() == old(Moment());
      ghost var first := trace;
      var image;
      image, read := AskRunImage();
      ReadEvent(first, read);
      WellThen(old(trace), first, trace, true);
      ghost var second := trace;
      var error := RunAndAwait(image);
      if error.Some? {
        if alive { BlamedThen(old(trace), second, trace, trace, OfStart(error.value)); }
        if alive && error == Some(NotReady) { StopTriedEarlier(old(trace), second, trace); }
        return NotStarted(error.value), read;
      }
      WellThen(old(trace), second, trace, true);
      Launches(old(trace), first, read, image);
      r := Started;
    }

    /** Running the image, and waiting until the computer is ready. */
    method RunAndAwait(image: string) returns (error: Option<StartError>)
      requires Valid() && allowExecution
      modifies this`container, this`volumes, this`moments, this`alive, this`now, this`trace
      ensures Valid() && (alive ==> old(alive)) && old(moments) <= moments && old(trace) <= trace
      ensures error.None? ==> container.Present? && container.image == image && image in images && Well(old(trace), trace, true)
      ensures error.None? ==> Reached(moments, old(|moments|), Checkpoint(images[image], old(Moment()).profile))
      ensures error.None? ==>
        && old(alive)
        && trace == old(trace) + [Event(Run(image), true)] + [Event(Ask(KeepsToken), true)] + [Event(Ask(IsReady), true)]
      ensures error.Some? ==> error.value in {CannotStart, NotReady}
      ensures alive && error.Some? ==> Blamed(old(trace), trace, OfStart(error.value))
      ensures alive && error == Some(NotReady) ==> StopTried(old(trace), trace)
    {
      hide Valid, Moment, Well, Blamed, Explains, IsNeeded, Reached, StopTried;
      var run := RunContainer(image);
      StartEvent(old(trace), Run(image), run);
      if !run { return Some(CannotStart); }
      assert Moment().files == images[image] by { StartedMoment(); }
      assert moments[old(|moments|)] == Checkpoint(images[image], old(Moment()).profile);
      BegunHere(moments, old(|moments|));
      ghost var third, begun := trace, moments;
      error := AwaitReady();
      StillReached(begun, moments, old(|moments|), Checkpoint(images[image], old(Moment()).profile));
      if error.None? {
        WellThen(old(trace), third, trace, true);
      } else if alive {
        BlamedThen(old(trace), third, trace, trace, OfStart(error.value));
        StopTriedEarlier(old(trace), third, trace);
      }
    }

    lemma BegunHere(moments: seq<Checkpoint>, k: nat)
      requires k < |moments|
      ensures Reached(moments, k, moments[k])
    {}

    lemma StillReached(before: seq<Checkpoint>, after: seq<Checkpoint>, since: nat, state: Checkpoint)
      requires Reached(before, since, state) && before <= after
      ensures Reached(after, since, state)
    {
      var k :| since <= k < |before| && before[k] == state;
      assert after[k] == state;
    }

    /** Writing the token of a container that runs, and waiting until it is ready; otherwise it is
        stopped again. */
    method AwaitReady() returns (error: Option<StartError>)
      requires Valid() && container.Present?
      modifies this`container, this`volumes, this`moments, this`alive, this`now, this`trace
      ensures Valid() && (alive ==> old(alive)) && old(moments) <= moments && old(trace) <= trace
      ensures error.None? ==> container.Present? && container.image == old(container).image && Well(old(trace), trace, true)
      ensures error.None? ==> old(alive) && trace == old(trace) + [Event(Ask(KeepsToken), true)] + [Event(Ask(IsReady), true)]
      ensures alive && allowExecution && error.Some? ==> StopTried(old(trace), trace)
      ensures error.Some? ==> error.value in {CannotStart, NotReady}
      ensures alive && error.Some? ==> Blamed(old(trace), trace, OfStart(error.value))
    {
      hide Valid, Moment, Well, Blamed, Explains, IsNeeded, StopTried;
      var persisted := Asked(KeepsToken);
      AskEvent(old(trace), KeepsToken, persisted);
      ghost var first := trace;
      if !persisted {
        var cleaned := Stop();
        if alive { BlamedThen(old(trace), old(trace), first, trace, OfStart(CannotStart)); }
        if alive && allowExecution { StopTriedEarlier(old(trace), first, trace); }
        return Some(CannotStart);
      }
      GuestWrites();
      var ready := Asked(IsReady);
      AskEvent(first, IsReady, ready);
      ghost var second := trace;
      if !ready {
        var cleaned := Stop();
        if alive { BlamedThen(old(trace), first, second, trace, OfStart(NotReady)); }
        if alive && allowExecution { StopTriedEarlier(old(trace), second, trace); }
        return Some(NotReady);
      }
      WellThen(old(trace), first, trace, true);
      error := None;
    }

    lemma StartedMoment()
      requires container.Present?
      ensures Moment().files == container.files
    {}

    /** Starting the computer: from the active checkpoint's image when there is one and the
        catalogue is read for the run, and otherwise from the base image. A computer that is
        said to be ready with the image asked for is left as it is. */
    method Start(answer: Answer) returns (r: StartResult, ghost read: bool)
      requires Valid()
      modifies this`images, this`volumes, this`container, this`moments, this`alive, this`now, this`trace
      ensures Valid() && (alive ==> old(alive)) && old(moments) <= moments && old(trace) <= trace
      ensures TellsStart(old(trace), trace, r, alive, ImageRead(catalog, baseImage, read))
      ensures r.Started? ==> container.Present? && container.image == ImageRead(catalog, baseImage, read)
      ensures r.Started? ==> (container.image == RunImage(catalog, baseImage) <==> read || RunImage(catalog, baseImage) == baseImage)
      ensures r.Started? ==> container.image in images && exists p ::
        Reached(moments, old(|moments|), Checkpoint(images[container.image], p))
        && (old(container).Absent? ==> p == old(Moment()).profile)
      ensures r.NotStarted? && r.error.CheckpointMissing? ==> ReportedMissing(r.error.image)
      ensures r == NotStarted(StartDisabled) <==> !allowExecution
      ensures r == NotStarted(Unavailable) <==> allowExecution && !answer.available
      ensures r.AlreadyReady? ==> answer.running && answer.healthy && answer.image == ImageRead(catalog, baseImage, read)
      ensures r.AlreadyReady? ==> container.Present? == old(container).Present? && images == old(images)
      ensures r.AlreadyReady? ==> trace == Noted(old(trace), old(alive), Read, read)
      ensures allowExecution && answer.available && answer.running && answer.healthy && answer.image == RunImage(catalog, baseImage) == baseImage
          ==> r.AlreadyReady?
    {
      hide Valid, ImageName, VolumeName, RunImage, Moment, Well, Blamed, Explains, IsNeeded, Reached;
      hide HasImage, Launched, StopTried, TellsStart;
      read := false;
      NothingIssued(trace);
      StartRefused(trace, NotStarted(StartDisabled), ImageRead(catalog, baseImage, false));
      StartRefused(trace, NotStarted(Unavailable), ImageRead(catalog, baseImage, false));
      if !allowExecution { return NotStarted(StartDisabled), read; }
      GuestWrites();
      if !answer.available { return NotStarted(Unavailable), read; }
      if answer.running {
        var image;
        image, read := AskRunImage();
        ReadEvent(old(trace), read);
        if answer.image == image && answer.healthy {
          LeftAlone(old(trace), trace, alive, ImageRead(catalog, baseImage, read));
          return AlreadyReady, read;
        }
      }
      ghost var first, begun := trace, |moments|;
      ghost var profile;
      r, read, profile := StartAgain(answer.running || answer.listed);
      TellsStartEarlier(old(trace), first, trace, r, alive, ImageRead(catalog, baseImage, read));
      if r.Started? {
        ReachedEarlier(moments, begun, old(|moments|), Checkpoint(images[container.image], profile));
      }
    }

    lemma StartRefused(trace: seq<Event>, r: StartResult, image: string)
      requires r in {NotStarted(StartDisabled), NotStarted(Unavailable)}
      ensures forall live :: TellsStart(trace, trace, r, live, image)
    {}

    lemma LeftAlone(before: seq<Event>, after: seq<Event>, live: bool, image: string)
      ensures TellsStart(before, after, AlreadyReady, live, image)
    {}

    /** Removing a container that is there, and running a new one. */
    method StartAgain(stale: bool) returns (r: StartResult, ghost read: bool, ghost profile: Option<Files>)
      requires Valid() && allowExecution
      modifies this`images, this`volumes, this`container, this`moments, this`alive, this`now, this`trace
      ensures Valid() && (alive ==> old(alive)) && old(moments) <= moments && !r.AlreadyReady? && old(trace) <= trace
      ensures r.Started? ==> container.Present? && container.image == ImageRead(catalog, baseImage, read) && container.image in images
      ensures r.Started? ==> Reached(moments, old(|moments|), Checkpoint(images[container.image], profile))
      ensures r.Started? && old(container).Absent? ==> profile == old(Moment()).profile
      ensures r.NotStarted? && r.error.CheckpointMissing? ==> ReportedMissing(r.error.image)
      ensures r != NotStarted(StartDisabled) && r != NotStarted(Unavailable)
      ensures TellsStart(old(trace), trace, r, alive, ImageRead(catalog, baseImage, read))
      ensures r == NotStarted(CannotReplace) ==> stale
    {
      hide HasImage, Launched, StopTried, TellsStart;
      hide Valid, ImageName, VolumeName, RunImage, ImageRead, Moment, Well, Blamed, Explains, IsNeeded, Reached;
      NothingIssued(trace);
      read, profile := false, None;
      if stale {
        var stopped := Stop();
        if !stopped {
          if alive { StopBlames(old(trace), trace); }
          NotReplaced(old(trace), trace, alive, ImageRead(catalog, baseImage, read));
          return NotStarted(CannotReplace), read, profile;
        }
      }
      ghost var first, begun := trace, |moments|;
      profile := Moment().profile;
      r, read := StartFresh();
      TellsStartEarlier(old(trace), first, trace, r, alive, ImageRead(catalog, baseImage, read));
      if r.Started? {
        ReachedEarlier(moments, begun, old(|moments|), Checkpoint(images[container.image], profile));
      }
    }

    lemma NotReplaced(before: seq<Event>, after: seq<Event>, live: bool, image: string)
      requires live ==> Blamed(before, after, OfStart(CannotReplace)) && StopTried(before, after)
      ensures TellsStart(before, after, NotStarted(CannotReplace), live, image)
    {}

    lemma StopBlames(before: seq<Event>, after: seq<Event>)
      requires Blamed(before, after, OfStop)
      ensures Blamed(before, after, OfStart(CannotReplace)) && Blamed(before, after, OfRestore(CannotStop))
    {
      var i :| |before| <= i < |after| && !after[i].ok && Explains(after[i].command, OfStop);
      assert Explains(after[i].command, OfStart(CannotReplace)) && Explains(after[i].command, OfRestore(CannotStop));
    }

    method Stop() returns (ok: bool)
      requires Valid()
      modifies this`container, this`volumes, this`moments, this`alive, this`now, this`trace
      ensures Valid() && (alive ==> old(alive)) && old(moments) <= moments && old(trace) <= trace
      ensures ok ==> allowExecution && alive && container.Absent? && Well(old(trace), trace, false) && Well(old(trace), trace, true)
      ensures !allowExecution ==> !ok && trace == old(trace) && container == old(container)
      ensures alive && !ok && allowExecution ==> Blamed(old(trace), trace, OfStop)
      ensures alive && allowExecution ==> StopTried(old(trace), trace)
      ensures ok && old(container).Absent? ==> Moment().profile == old(Moment()).profile
      ensures ok && old(container).Present? ==> moments != [] && Moment().profile == moments[|moments| - 1].profile
    {
      hide Valid, Well, Blamed, Explains, IsNeeded, StopTried;
      if !allowExecution { return false; }
      GuestWrites();
      if container.Present? { LastMoment(); }
      ok := RemoveContainer();
      RmEvent(old(trace), ok);
      if !ok { return; }
      ghost var first := trace;
      ok := Asked(ClearsToken);
      AskEvent(first, ClearsToken, ok);
      TokenCleared(old(trace), ok);
      if ok {
        WellThen(old(trace), first, trace, false);
        WellThen(old(trace), first, trace, true);
      } else if alive {
        BlamedThen(old(trace), first, trace, trace, OfStop);
      }
    }

    lemma RmEvent(before: seq<Event>, ok: bool)
      ensures !ok ==> Blamed(before, before + [Event(Rm, ok)], OfStop) && StopTried(before, before + [Event(Rm, ok)])
      ensures ok ==> Well(before, before + [Event(Rm, ok)], false) && Well(before, before + [Event(Rm, ok)], true)
    {
      OneEvent(before, Rm, ok, OfStop);
    }

    lemma TokenCleared(before: seq<Event>, ok: bool)
      ensures StopTried(before, before + [Event(Rm, true)] + [Event(Ask(ClearsToken), ok)])
    {}

    /** The profile part of a restore, when both the computer and the checkpoint have one. */
    method RewindProfile(item: Snapshot) returns (ok: bool, ghost removed: bool, ghost left: Files)
      requires Valid() && item in catalog.snapshots && container.Absent?
      modifies this`volumes, this`alive, this`now, this`trace
      ensures Valid() && (alive ==> old(alive)) && old(trace) <= trace
      ensures ok ==> Well(old(trace), trace, false)
      ensures alive && !ok ==> Blamed(old(trace), trace, OfRestore(CannotReplaceProfile))
      ensures ok ==> item.id in captured
      ensures ok ==> ComesBack(captured[item.id], Checkpoint(captured[item.id].files, Moment().profile), left)
      ensures removed ==> left == map[]
      ensures profileVolume != "" && item.profile != "" && !removed ==> left == FilesOf(old(Moment()).profile)
    {
      hide Valid, Moment, Well, Blamed, Explains, IsNeeded;
      NothingIssued(trace);
      ok, removed, left := true, false, map[];
      Listed(item);
      ProfileMoment();
      if profileVolume != "" && item.profile != "" {
        ghost var before := FilesIn(volumes, profileVolume);
        ok, removed := ReplaceProfile(item);
        left := if removed then map[] else before;
        if !ok { return; }
        OverlayIsExact(left, captured[item.id].profile.value);
        ProfileMoment();
      }
    }

    /** The steps of a restore before the computer is started again. What was left of the old
        profile is nothing when its volume was removed, and otherwise what it held when the
        computer was stopped. */
    method Rewind(item: Snapshot) returns (failure: Option<RestoreError>, ghost removed: bool, ghost left: Files)
      requires Valid() && item in catalog.snapshots && allowExecution
      modifies this`catalog, this`volumes, this`container, this`moments, this`alive, this`now, this`trace
      ensures Valid() && (alive ==> old(alive)) && old(moments) <= moments && old(trace) <= trace
      ensures failure.None? ==> Well(old(trace), trace, false)
      ensures alive && failure.Some? ==> Blamed(old(trace), trace, OfRestore(failure.value))
      ensures failure.Some? ==> failure.value in {CannotStop, CannotReplaceProfile, RestoreCannotSave}
      ensures (alive && failure.Some? ==> catalog == old(catalog))
      ensures failure.None? ==> container.Absent? && catalog == old(catalog).(activeImage := item.image, activeId := item.id)
      ensures failure.None? ==> item.id in captured
      ensures failure.None? ==> ComesBack(captured[item.id], Checkpoint(captured[item.id].files, Moment().profile), left)
      ensures removed ==> left == map[]
      ensures failure.None? && profileVolume != "" && item.profile != "" && !removed ==>
        IsLeft(left, old(container), old(Moment()).profile, moments, old(|moments|))
    {
      hide Valid, Moment, ComesBack, Well, Blamed, Explains, IsNeeded;
      removed, left := false, map[];
      var stopped := Stop();
      if !stopped {
        if alive { StopBlames(old(trace), trace); }
        return Some(CannotStop), removed, left;
      }
      ghost var first := trace;
      assert IsLeft(FilesOf(Moment().profile), old(container), old(Moment()).profile, moments, old(|moments|)) by {
        if old(container).Present? {
          ghost var last := |moments| - 1;
          assert FilesOf(moments[last].profile) == FilesOf(Moment().profile);
        }
      }
      var replaced;
      replaced, removed, left := RewindProfile(item);
      if !replaced {
        if alive { BlamedThen(old(trace), first, trace, trace, OfRestore(CannotReplaceProfile)); }
        return Some(CannotReplaceProfile), removed, left;
      }
      WellThen(old(trace), first, trace, false);
      Activates(item);
      ghost var second := trace;
      var saved := SaveCatalog(catalog.(activeImage := item.image, activeId := item.id));
      SaveEvent(second, saved);
      if saved {
        WellThen(old(trace), second, trace, false);
      } else if alive {
        BlamedThen(old(trace), second, trace, trace, OfRestore(RestoreCannotSave));
      }
      failure := if saved then None else Some(RestoreCannotSave);
    }

    /** Going back to a checkpoint. A computer started by it has been in a state with the
        captured profile, up to what was left of the old one, and with the captured files when
        the catalogue could be read for the run; otherwise it has those of the base image. */
    method RestoreSnapshot(id: string, answer: Answer) returns (r: RestoreResult, ghost removed: bool, ghost left: Files, ghost read: bool)
      requires Valid()
      modifies this`catalog, this`images, this`volumes, this`container, this`moments, this`alive, this`now, this`trace
      ensures Valid() && (alive ==> old(alive)) && old(moments) <= moments && old(trace) <= trace
      ensures r.Restored? ==> |old(trace)| < |trace| && trace[|old(trace)|] == Event(Read, true)
      ensures alive && r.NotRestored? && r.error !in {RestoreDisabled, NotFound} ==> Blamed(old(trace), trace, OfRestore(r.error))
      ensures r == NotRestored(RestoreCannotRead) ==> trace == Noted(old(trace), old(alive), Read, false)
      ensures alive && r.NotRestored? ==> catalog == old(catalog)
      ensures r == NotRestored(RestoreDisabled) <==> !allowExecution
      ensures r == NotRestored(NotFound) ==> forall s :: s in catalog.snapshots ==> s.id != TrimSpace(id)
      ensures r.Restored? ==> IsActivation(old(catalog), catalog, TrimSpace(id))
      ensures r == Restored(Started) ==> TrimSpace(id) in captured
      ensures r == Restored(Started) ==> ImageRead(catalog, baseImage, read) in images && exists state ::
        && Reached(moments, old(|moments|), state)
        && state.files == images[ImageRead(catalog, baseImage, read)]
        && ComesBack(captured[TrimSpace(id)], Checkpoint(captured[TrimSpace(id)].files, state.profile), left)
        && (ComesBack(captured[TrimSpace(id)], state, left) <==> read || images[baseImage] == captured[TrimSpace(id)].files)
      ensures removed ==> left == map[]
      ensures r == Restored(Started) && profileVolume != "" && captured[TrimSpace(id)].profile.Some? && !removed ==>
        IsLeft(left, old(container), old(Moment()).profile, moments, old(|moments|))
    {
      hide Valid, RunImage, Moment, TrimSpace, ComesBack, Reached, IsLeft, Well, Blamed, Explains, IsNeeded;
      hide HasImage, Launched, StopTried, TellsStart;
      removed, left, read := false, map[], false;
      if !allowExecution { return NotRestored(RestoreDisabled), removed, left, read; }
      var wanted := TrimSpace(id);
      var loaded := LoadCatalog();
      ReadEvent(old(trace), loaded);
      if !loaded { return NotRestored(RestoreCannotRead), removed, left, read; }
      ghost var first := trace;
      var found := Find(catalog.snapshots, wanted);
      if found.None? { return NotRestored(NotFound), removed, left, read; }
      var item := found.value;
      Listed(item);
      assert Moment() == old(Moment()) && container == old(container) && moments == old(moments);
      var failure;
      failure, removed, left := Rewind(item);
      if failure.Some? {
        if alive { BlamedThen(old(trace), first, trace, trace, OfRestore(failure.value)); }
        return NotRestored(failure.value), removed, left, read;
      }
      ghost var earlier, profile := moments, Moment().profile;
      var start;
      start, read := Start(answer);
      r := Restored(start);
      if start.Started? {
        ActiveFiles();
        ghost var state := Checkpoint(images[ImageRead(catalog, baseImage, read)], profile);
        assert Reached(moments, |earlier|, state);
        FilesDecide(captured[item.id], state, left);
        ReachedEarlier(moments, |earlier|, old(|moments|), state);
        assert captured[item.id].profile.Some? <==> item.profile != "";
        if profileVolume != "" && item.profile != "" && !removed {
          LeftStays(left, old(container), old(Moment()).profile, earlier, moments, old(|moments|));
        }
      }
    }

    lemma Listed(item: Snapshot)
      requires Valid() && item in catalog.snapshots
      ensures item.id != "" && item.id in captured && (item.profile == "" <==> captured[item.id].profile.None?)
    {
      assert WellNamed(item) && Kept(item, images, volumes, captured);
    }

    lemma ProfileMoment()
      ensures Moment().profile.Some? <==> profileVolume != ""
      ensures profileVolume in volumes && profileVolume != "" ==> Moment().profile == Some(volumes[profileVolume])
      ensures profileVolume != "" ==> FilesOf(Moment().profile) == FilesIn(volumes, profileVolume)
    {}

    lemma Activates(item: Snapshot)
      requires Valid() && item in catalog.snapshots
      ensures Safe(catalog.(activeImage := item.image, activeId := item.id), images, volumes, captured)
      ensures item.id in captured && (item.profile == "" <==> captured[item.id].profile.None?)
    {
      Listed(item);
      ActivatedIsSafe(catalog, images, volumes, captured, item);
      hide Safe;
    }

    // The files of the active checkpoint, when there is one.
    lemma ActiveFiles()
      requires Valid()
      ensures catalog.activeId != "" ==>
        && RunImage(catalog, baseImage) in images && catalog.activeId in captured
        && images[RunImage(catalog, baseImage)] == captured[catalog.activeId].files
    {
      RunImageIsKept(catalog, images, volumes, captured, baseImage, true);
      hide Safe, RunImage;
    }

    /** Removing the image and the profile volume of an entry that is no longer listed. */
    method RemoveCopies(item: Snapshot)
      requires Valid() && WellNamed(item) && forall s :: s in catalog.snapshots ==> s.id != item.id
      modifies this`images, this`volumes, this`alive, this`now, this`trace
      ensures Valid() && (alive ==> old(alive)) && old(trace) <= trace
      ensures alive ==> |trace| == |old(trace)| + |Removals(item)| && EndsIn(old(trace), trace, Removals(item))
      ensures forall name :: name != ImageName(item.id) ==> Agrees(old(images), images, name)
      ensures forall name :: name != VolumeName(item.id) ==> Agrees(old(volumes), volumes, name)
    {
      hide Valid, ImageName, VolumeName, IsId;
      NamesAreApart(item.id, item.id);
      if item.image != "" {
        RemoveImage(item.id);
      }
      assert alive ==> |trace| == |old(trace)| + 1 && trace[|old(trace)|].command == Rmi(item.image);
      if item.profile != "" {
        Unlisted(item);
        var removed := RemoveVolume(item.profile);
      }
    }

    // DeleteSnapshot does not ask whether execution is allowed.
    method DeleteSnapshot(id: string) returns (r: DeleteResult)
      requires Valid()
      modifies this`catalog, this`images, this`volumes, this`alive, this`now, this`trace
      ensures Valid() && (alive ==> old(alive)) && old(trace) <= trace
      ensures r == DeleteCannotRead ==> trace == Noted(old(trace), old(alive), Read, false)
      ensures r == DeleteNotFound ==> trace == old(trace) + [Event(Read, true)]
      ensures alive && r == DeleteCannotSave ==> trace == old(trace) + [Event(Read, true)] + [Event(Save, false)]
      ensures alive && r != Deleted ==> catalog == old(catalog) && images == old(images) && volumes == old(volumes)
      ensures r == DeleteNotFound ==> forall s :: s in catalog.snapshots ==> s.id != TrimSpace(id)
      ensures r == Deleted ==> exists k ::
        && 0 <= k < |old(catalog).snapshots|
        && old(catalog).snapshots[k].id == TrimSpace(id)
        && catalog.snapshots == old(catalog).snapshots[..k] + old(catalog).snapshots[k + 1..]
      ensures r == Deleted ==>
        if old(catalog).activeId == TrimSpace(id) then catalog.activeId == "" && catalog.activeImage == ""
        else catalog.activeId == old(catalog).activeId && catalog.activeImage == old(catalog).activeImage
      ensures alive && r == Deleted ==> exists s ::
        && s in old(catalog).snapshots && s.id == TrimSpace(id)
        && |trace| == |old(trace)| + 2 + |Removals(s)|
        && old(trace) + [Event(Read, true)] + [Event(Save, true)] <= trace
        && EndsIn(old(trace), trace, Removals(s))
      ensures forall name :: name != ImageName(TrimSpace(id)) ==> Agrees(old(images), images, name)
      ensures forall name :: name != VolumeName(TrimSpace(id)) ==> Agrees(old(volumes), volumes, name)
    {
      hide Valid, TrimSpace, ImageName, VolumeName, Forget, WellNamed, EndsIn, Removals;
      var wanted := TrimSpace(id);
      var loaded := LoadCatalog();
      if !loaded { return DeleteCannotRead; }
      var found := Find(catalog.snapshots, wanted);
      if found.None? { return DeleteNotFound; }
      var item := found.value;
      ForgetStaysSafe(wanted);
      ghost var k := ForgetsEntry(wanted, item);
      var next := Forget(catalog, wanted);
      var saved := SaveCatalog(next);
      if !saved { return DeleteCannotSave; }
      r := Deleted;
      ghost var recorded := trace;
      RemoveCopies(item);
      if alive { EndsInEarlier(old(trace), recorded, trace, Removals(item)); }
    }

    lemma ForgetsEntry(id: string, item: Snapshot) returns (k: nat)
      requires Valid() && item in catalog.snapshots && item.id == id
      ensures k < |catalog.snapshots| && catalog.snapshots[k] == item
      ensures var next := Forget(catalog, id);
        && next.snapshots == catalog.snapshots[..k] + catalog.snapshots[k + 1..]
        && (if catalog.activeId == id then next.activeId == "" && next.activeImage == ""
            else next.activeId == catalog.activeId && next.activeImage == catalog.activeImage)
    {
      k := ForgetsOne(catalog, id, item);
    }

    lemma ForgetStaysSafe(id: string)
      requires Valid()
      ensures Safe(Forget(catalog, id), images, volumes, captured)
      ensures forall s :: s in Forget(catalog, id).snapshots ==> s.id != id
      ensures forall s :: s in catalog.snapshots ==> WellNamed(s)
    {
      ForgetIsSafe(catalog, images, volumes, captured, id);
      hide Safe;
    }

    lemma Unlisted(item: Snapshot)
      requires Valid() && WellNamed(item) && forall s :: s in catalog.snapshots ==> s.id != item.id
      ensures item.profile != "" ==> forall s :: s in catalog.snapshots ==> s.profile != item.profile
    {
      UnlistedVolume(catalog, item.id);
    }

    /** The entries, with their marks. */
    method ListSnapshots() returns (ok: bool, items: seq<(Snapshot, bool)>)
      requires Valid()
      modifies this`alive, this`now, this`trace
      ensures Valid() && (ok ==> alive) && ok == Sees(old(now), old(alive)) && trace == Noted(old(trace), old(alive), Read, ok)
      ensures ok ==> |items| == |catalog.snapshots|
      ensures ok ==> forall i :: 0 <= i < |items| ==> items[i] == (catalog.snapshots[i], catalog.snapshots[i].id == catalog.activeId)
    {
      hide Valid;
      items := [];
      ok := LoadCatalog();
      if !ok { return; }
      Marks();
      for i := 0 to |catalog.snapshots|
        invariant |items| == i
        invariant forall j :: 0 <= j < i ==> items[j] == (catalog.snapshots[j], catalog.snapshots[j].id == catalog.activeId)
      {
        var s := catalog.snapshots[i];
        items := items + [(s, s.id == catalog.activeId || s.image == catalog.activeImage)];
      }
    }

    lemma Marks()
      requires Valid()
      ensures forall s :: s in catalog.snapshots ==>
        (s.id == catalog.activeId || s.image == catalog.activeImage <==> s.id == catalog.activeId)
    {
      MarksActive(catalog);
      hide Safe;
    }

    /** The process starts again after it stopped: what is on disk and in Docker stays. */
    method Restart()
      requires Valid()
      modifies this`alive
      ensures Valid() && alive
    {
      alive := true;
    }

    /** Any sequence of operations, with the process stopping anywhere and starting again.
        Whatever happens, the catalogue stays sound, and a checkpoint once taken is never
        altered: each entry's image and volume still hold it. */
    method Drive(operations: seq<Operation>)
      requires Valid() && FreshIds(operations, used)
      modifies this
      ensures Valid() && Extends(old(captured), captured)
    {
      hide Valid, IsId;
      for i := 0 to |operations|
        invariant Valid() && Extends(old(captured), captured)
        invariant FreshIds(operations[i..], used)
      {
        assert operations[i..][0] == operations[i] && operations[i..][1..] == operations[i + 1..];
        match operations[i] {
          case Create(name, id) =>
            FreshRest(operations[i..], used, id);
            var created := CreateSnapshot(name, id);
          case Restore(id, answer) =>
            var restored, removed, left, read := RestoreSnapshot(id, answer);
          case Delete(id) =>
            var deleted := DeleteSnapshot(id);
          case StartUp(answer) =>
            var started, read := Start(answer);
          case ShutDown =>
            var stopped := Stop();
          case Work =>
            GuestWrites();
        }
        if !alive { Restart(); }
      }
    }
  }

  datatype Operation = Create(name: string, id: string) | Restore(id: string, answer: Answer) | Delete(id: string) | StartUp(answer: Answer) | ShutDown | Work

  /** Random ids do not repeat. */
  ghost predicate FreshIds(operations: seq<Operation>, used: set<string>) {
    && (forall i :: 0 <= i < |operations| && operations[i].Create? ==> IsId(operations[i].id) && operations[i].id !in used)
    && (forall i, j :: 0 <= i < j < |operations| && operations[i].Create? && operations[j].Create? ==> operations[i].id != operations[j].id)
  }

  lemma FreshRest(operations: seq<Operation>, used: set<string>, id: string)
    requires FreshIds(operations, used) && operations != [] && operations[0].Create? && operations[0].id == id
    ensures FreshIds(operations[1..], used + {id})
  {
    hide IsId;
  }
}
