/**
 * Appends, replacements and deletions of one team's notes (aisense-core, notes.rs). Appends and
 * writes hold the folder's lock from their checks to their effect; a deletion takes no lock.
 */
module SharedNotes {
  import opened Prelude
  import opened Notes

  type Files = map<Slug, Content>

  datatype Failure =
    | InvalidSlug
    | NotFound
    | StaleNote(currentHash: Hash, diff: seq<DiffLine>)
    | HashRequired
    | TooLarge
    | TooMany

  /** `^[a-z0-9][a-z0-9-]*$`, up to 64. */
  predicate ValidSlug(slug: Slug) {
    && slug != [] && |slug| <= 64
    && ('a' <= slug[0] <= 'z' || '0' <= slug[0] <= '9')
    && forall i :: 0 <= i < |slug| ==> 'a' <= slug[i] <= 'z' || '0' <= slug[i] <= '9' || slug[i] == '-'
  }

  /** Only newlines and carriage returns are cut, and only from the end: the block keeps the text. */
  function Trimmed(text: Content): (kept: Content)
    ensures kept <= text && (forall k :: |kept| <= k < |text| ==> text[k] == 10 || text[k] == 13)
    ensures kept == [] || (kept[|kept| - 1] != 10 && kept[|kept| - 1] != 13)
  {
    if text != [] && text[|text| - 1] in [10, 13] then Trimmed(text[..|text| - 1]) else text
  }

  /** An appended block ends with exactly one newline. */
  function Block(text: Content): Content { Trimmed(text) + [10] }

  // ---- The checks made under the lock ----

  function AppendFailure(files: Files, slug: Slug, text: Content): Option<Failure> {
    if !ValidSlug(slug) then Some(InvalidSlug)
    else if slug !in files then Some(NotFound)
    else if |files[slug]| + |Block(text)| > NOTE_MAX_BYTES then Some(TooLarge)
    else None
  }

  function WriteFailure(files: Files, slug: Slug, content: Content, expected: Option<Hash>): Option<Failure> {
    if !ValidSlug(slug) then Some(InvalidSlug)
    else if |content| > NOTE_MAX_BYTES then Some(TooLarge)
    else if slug in files then
      match expected
      case None => Some(HashRequired)
      case Some(h) =>
        if HashOf(files[slug]) != h
        then Some(StaleNote(HashOf(files[slug]), Diff(Lines(files[slug]), Lines(content))))
        else None
    else if expected.Some? then Some(NotFound)
    else if |files| >= NOTES_MAX then Some(TooMany)
    else None
  }

  class TeamNotes {
    var files: Files

    constructor (files: Files)
      ensures this.files == files
    {
      this.files := files;
    }

    method Append(slug: Slug, text: Content) returns (failure: Option<Failure>)
      modifies this
      ensures failure == AppendFailure(old(files), slug, text)
      ensures failure.None? <==>
                (ValidSlug(slug) && slug in old(files)
                 && |old(files)[slug]| + |Trimmed(text)| + 1 <= NOTE_MAX_BYTES)
      ensures failure.Some? ==> files == old(files)
      ensures failure.None? ==> files == old(files)[slug := old(files)[slug] + (Trimmed(text) + [NEWLINE])]
    {
      if !ValidSlug(slug) { return Some(InvalidSlug); }
      var block := Block(text);
      if slug !in files { return Some(NotFound); }
      if |files[slug]| + |block| > NOTE_MAX_BYTES { return Some(TooLarge); }
      files := files[slug := files[slug] + block];
      return None;
    }

    method Write(slug: Slug, content: Content, expected: Option<Hash>) returns (failure: Option<Failure>)
      modifies this
      ensures failure == WriteFailure(old(files), slug, content, expected)
      ensures failure.None? <==>
                (ValidSlug(slug) && |content| <= NOTE_MAX_BYTES
                 && if slug in old(files) then expected == Some(HashOf(old(files)[slug]))
                    else expected.None? && |old(files)| < NOTES_MAX)
      ensures failure.Some? && failure.value.StaleNote? <==>
                (ValidSlug(slug) && |content| <= NOTE_MAX_BYTES && slug in old(files)
                 && expected.Some? && expected.value != HashOf(old(files)[slug]))
      ensures files == if failure.Some? then old(files) else old(files)[slug := content]
    {
      hide HashOf, Diff, Lines;
      if !ValidSlug(slug) { return Some(InvalidSlug); }
      if |content| > NOTE_MAX_BYTES { return Some(TooLarge); }
      if slug in files {
        if expected.None? { return Some(HashRequired); }
        var current := ContentHash(files[slug]);
        if current != expected.value {
          var diff := LineDiff(files[slug], content);
          return Some(StaleNote(current, diff));
        }
      } else {
        if expected.Some? { return Some(NotFound); }
        if |files| >= NOTES_MAX { return Some(TooMany); }
      }
      files := files[slug := content];
      return None;
    }

    method Delete(slug: Slug) returns (failure: Option<Failure>)
      modifies this
      ensures failure == if !ValidSlug(slug) then Some(InvalidSlug)
                         else if slug !in old(files) then Some(NotFound)
                         else None
      ensures files == if failure.Some? then old(files) else old(files) - {slug}
    {
      if !ValidSlug(slug) { return Some(InvalidSlug); }
      if slug !in files { return Some(NotFound); }
      files := files - {slug};
      return None;
    }
  }

  /** A stale answer carries both sides: the disk's lines and the writer's. */
  lemma StaleAnswerRebuildsBoth(files: Files, slug: Slug, content: Content, expected: Option<Hash>)
    requires WriteFailure(files, slug, content, expected).Some?
             && WriteFailure(files, slug, content, expected).value.StaleNote?
    ensures var answer := WriteFailure(files, slug, content, expected).value;
            && slug in files && answer.currentHash == HashOf(files[slug])
            && Reading(answer.diff, false) == Lines(files[slug]) && Reading(answer.diff, true) == Lines(content)
  {
    hide HashOf, Diff, Lines, Reading;
    DiffRebuildsBoth(Lines(files[slug]), Lines(content));
  }

  // ---- Interleavings ----

  /** Who holds the lock, between its checks and its effect. */
  datatype Holder =
    | Free
    | Appending(slug: Slug, block: Content)
    | Replacing(slug: Slug, content: Content, expected: Option<Hash>)

  /** An effect that happened, in the order they did. */
  datatype Done = Appended(slug: Slug, block: Content) | Installed(slug: Slug, content: Content,
      expected: Option<Hash>) | Deleted(slug: Slug)

  datatype State = State(files: Files, holder: Holder, log: seq<Done>)

  datatype Step =
    | BeginAppend(slug: Slug, text: Content)
    | BeginWrite(slug: Slug, content: Content, expected: Option<Hash>)
    | Finish
    | Delete(slug: Slug)

  predicate Enabled(s: State, step: Step) {
    match step
    case BeginAppend(slug, text) => s.holder.Free? && AppendFailure(s.files, slug, text).None?
    case BeginWrite(slug, content, expected) => s.holder.Free? && WriteFailure(s.files, slug, content, expected).None?
    case Finish => !s.holder.Free?
    case Delete(slug) => ValidSlug(slug) && slug in s.files
  }

  function Effect(files: Files, d: Done): Files {
    match d
    case Appended(slug, block) => if slug in files then files[slug := files[slug] + block] else files
    case Installed(slug, content, _) => files[slug := content]
    case Deleted(slug) => files - {slug}
  }

  function Logged(s: State, d: Done): State {
    State(Effect(s.files, d), Free, s.log + [d])
  }

  /** An append whose note was deleted after its checks finds no file and does nothing. */
  function Next(s: State, step: Step): State
    requires Enabled(s, step)
  {
    match step
    case BeginAppend(slug, text) => s.(holder := Appending(slug, Block(text)))
    case BeginWrite(slug, content, expected) => s.(holder := Replacing(slug, content, expected))
    case Finish =>
      (match s.holder
       case Appending(slug, block) => if slug in s.files then Logged(s, Appended(slug, block)) else s.(holder := Free)
       case Replacing(slug, content, expected) => Logged(s, Installed(slug, content, expected))
       case Free => s)
    case Delete(slug) => Logged(s, Deleted(slug)).(holder := s.holder)
  }

  function Replay(log: seq<Done>): Files {
    if log == [] then map[] else Effect(Replay(log[..|log| - 1]), log[|log| - 1])
  }

  /** What made an effect legitimate, on the notes as they were just before it. */
  ghost predicate Justified(before: Files, d: Done) {
    match d
    case Appended(slug, block) => slug in before && |before[slug]| + |block| <= NOTE_MAX_BYTES
    case Installed(slug, content, expected) =>
      && ValidSlug(slug) && |content| <= NOTE_MAX_BYTES
      && (expected.None? ==> slug !in before)
      && (expected.Some? && slug in before ==> HashOf(before[slug]) == expected.value)
      && (slug !in before ==> |before| < NOTES_MAX)
    case Deleted(slug) => slug in before
  }

  ghost predicate Bounded(files: Files) {
    |files| <= NOTES_MAX && forall slug :: slug in files ==> ValidSlug(slug) && |files[slug]| <= NOTE_MAX_BYTES
  }

  /** What the holder checked still holds, unless its note was deleted meanwhile. */
  ghost predicate HolderOk(s: State) {
    match s.holder
    case Free => true
    case Appending(slug, block) => slug in s.files ==> Justified(s.files, Appended(slug, block))
    case Replacing(slug, content, expected) => Justified(s.files, Installed(slug, content, expected))
  }

  ghost predicate AllJustified(log: seq<Done>) {
    forall i :: 0 <= i < |log| ==> Justified(Replay(log[..i]), log[i])
  }

  ghost predicate Inv(s: State) {
    s.files == Replay(s.log) && Bounded(s.files) && HolderOk(s) && AllJustified(s.log)
  }

  lemma LogGrows(s: State, d: Done)
    requires s.files == Replay(s.log) && AllJustified(s.log) && Justified(s.files, d)
    ensures Logged(s, d).files == Replay(s.log + [d]) && AllJustified(s.log + [d])
  {
    var log := s.log + [d];
    assert log[..|s.log|] == s.log;
    hide Justified;
    forall i | 0 <= i < |log| ensures Justified(Replay(log[..i]), log[i]) {
      if i < |s.log| { assert log[..i] == s.log[..i]; }
    }
  }

  lemma EffectStaysBounded(files: Files, d: Done)
    requires Bounded(files) && Justified(files, d)
    ensures Bounded(Effect(files, d))
  {
    hide HashOf, ValidSlug;
    var after := Effect(files, d);
    if d.Deleted? {
      assert after.Keys <= files.Keys;
      SubsetCount(after.Keys, files.Keys);
    } else if d.slug !in files {
      assert after.Keys == files.Keys + {d.slug};
    } else {
      assert after.Keys == files.Keys;
    }
  }

  lemma DeletionKeepsHolder(s: State, slug: Slug)
    requires HolderOk(s) && Bounded(s.files) && slug in s.files
    ensures HolderOk(s.(files := s.files - {slug}))
  {
    var after := s.files - {slug};
    assert after.Keys == s.files.Keys - {slug};
    assert |after| == |after.Keys| < |s.files.Keys| == |s.files|;
    hide HashOf, ValidSlug;
  }

  lemma StepKeepsInv(s: State, step: Step)
    requires Enabled(s, step) && Inv(s)
    ensures Inv(Next(s, step))
  {
    hide HashOf, ValidSlug, Replay, AllJustified, Lines, Diff, Block;
    match step {
      case BeginAppend(slug, text) =>
      case BeginWrite(slug, content, expected) =>
      case Finish =>
        if s.holder.Replacing? {
          var d := Installed(s.holder.slug, s.holder.content, s.holder.expected);
          LogGrows(s, d);
          EffectStaysBounded(s.files, d);
        } else if s.holder.slug in s.files {
          var d := Appended(s.holder.slug, s.holder.block);
          LogGrows(s, d);
          EffectStaysBounded(s.files, d);
        }
      case Delete(slug) =>
        LogGrows(s, Deleted(slug));
        EffectStaysBounded(s.files, Deleted(slug));
        DeletionKeepsHolder(s, slug);
    }
  }

  ghost predicate Legal(s: State, steps: seq<Step>)
    decreases |steps|
  {
    steps == [] || (Enabled(s, steps[0]) && Legal(Next(s, steps[0]), steps[1..]))
  }

  function After(s: State, steps: seq<Step>): State
    requires Legal(s, steps)
    decreases |steps|
  {
    if steps == [] then s else After(Next(s, steps[0]), steps[1..])
  }

  const START := State(map[], Free, [])

  lemma {:induction false} RunKeepsInv(s: State, steps: seq<Step>)
    requires Inv(s) && Legal(s, steps)
    ensures Inv(After(s, steps))
    decreases |steps|
  {
    hide Inv, Next, Enabled;
    if steps != [] {
      StepKeepsInv(s, steps[0]);
      RunKeepsInv(Next(s, steps[0]), steps[1..]);
    }
  }

  /**
   * In every interleaving the notes are the replay of what succeeded, in lock order, within the
   * limits; and each effect was justified by the notes as they were at that very moment.
   */
  lemma NoUpdateIsLost(steps: seq<Step>)
    requires Legal(START, steps)
    ensures var s := After(START, steps);
            s.files == Replay(s.log) && Bounded(s.files) && AllJustified(s.log)
  {
    assert Inv(START);
    RunKeepsInv(START, steps);
  }

  /** An appended block stays, in place, until the note is replaced or deleted. */
  lemma {:induction false} AppendsSurvive(log: seq<Done>, i: nat, j: nat, slug: Slug)
    requires i < j <= |log| && log[i].Appended? && log[i].slug == slug && slug in Replay(log[..i])
    requires forall k :: i < k < j ==> log[k].slug != slug || log[k].Appended?
    ensures slug in Replay(log[..i + 1]) && slug in Replay(log[..j])
    ensures Replay(log[..i + 1])[slug] == Replay(log[..i])[slug] + log[i].block
    ensures Replay(log[..i + 1])[slug] <= Replay(log[..j])[slug]
    decreases j
  {
    assert log[..i + 1][..i] == log[..i];
    if j > i + 1 {
      AppendsSurvive(log, i, j - 1, slug);
      assert log[..j][..j - 1] == log[..j - 1];
    }
  }

  /** So a replacement that drops an append was made by someone who had read a note of that very hash with it. */
  lemma ReplacingMeansHavingRead(log: seq<Done>, i: nat, j: nat)
    requires AllJustified(log)
    requires i < j < |log| && log[i].Appended? && log[j].Installed? && log[j].slug == log[i].slug
    requires forall k :: i < k < j ==> log[k].slug != log[i].slug || log[k].Appended?
    ensures log[i].slug in Replay(log[..i]) && log[i].slug in Replay(log[..j])
    ensures Replay(log[..i])[log[i].slug] + log[i].block <= Replay(log[..j])[log[i].slug]
    ensures log[j].expected == Some(HashOf(Replay(log[..j])[log[i].slug]))
  {
    hide HashOf, ValidSlug, Replay;
    assert Justified(Replay(log[..i]), log[i]) && Justified(Replay(log[..j]), log[j]);
    AppendsSurvive(log, i, j, log[i].slug);
  }

  ghost predicate NotWritten(steps: seq<Step>, slug: Slug) {
    forall k :: 0 <= k < |steps| ==> !(steps[k].BeginWrite? && steps[k].slug == slug)
  }

  ghost predicate GoneForGood(s: State, slug: Slug) {
    forall steps :: Legal(s, steps) && NotWritten(steps, slug) ==> slug !in After(s, steps).files
  }

  predicate BeingReplaced(s: State, slug: Slug) { s.holder.Replacing? && s.holder.slug == slug }

  lemma {:induction false} StaysAway(s: State, steps: seq<Step>, slug: Slug)
    requires slug !in s.files && !BeingReplaced(s, slug)
    requires Legal(s, steps) && NotWritten(steps, slug)
    ensures slug !in After(s, steps).files
    decreases |steps|
  {
    if steps != [] {
      assert slug !in Next(s, steps[0]).files
          && !BeingReplaced(Next(s, steps[0]), slug) by { hide Block, AppendFailure, WriteFailure; }
      StaysAway(Next(s, steps[0]), steps[1..], slug);
    }
  }

  /** A deleted note stays away until somebody writes it again, exactly when no replacement of it was under way. */
  lemma DeletionSticksIff(s: State, slug: Slug)
    requires Enabled(s, Delete(slug))
    ensures GoneForGood(Next(s, Delete(slug)), slug) <==> !BeingReplaced(s, slug)
  {
    hide AppendFailure, WriteFailure, Block, ValidSlug;
    var deleted := Next(s, Delete(slug));
    if BeingReplaced(s, slug) {
      assert Legal(deleted, [Finish]) && NotWritten([Finish], slug);
      assert After(deleted, [Finish]) == After(Next(deleted, Finish), []) == Next(deleted, Finish);
    } else {
      forall steps | Legal(deleted, steps) && NotWritten(steps, slug) ensures slug !in After(deleted, steps).files {
        StaysAway(deleted, steps, slug);
      }
    }
  }

  /** A run in which a deletion between a replacement's check and its rename is undone by the rename. */
  lemma DeletionCanBeUndone(slug: Slug, content: Content)
    requires ValidSlug(slug) && |content| <= NOTE_MAX_BYTES
    ensures var steps := [BeginWrite(slug, content, None), Finish, BeginWrite(slug, content, Some(HashOf(content))),
            Delete(slug), Finish];
            Legal(START, steps) && slug in After(START, steps).files
  {
    hide HashOf, ValidSlug;
    var s1 := Next(START, BeginWrite(slug, content, None));
    var s2 := Next(s1, Finish);
    var s3 := Next(s2, BeginWrite(slug, content, Some(HashOf(content))));
    var s4 := Next(s3, Delete(slug));
    OneStep(s4, Finish, []);
    OneStep(s3, Delete(slug), [Finish]);
    OneStep(s2, BeginWrite(slug, content, Some(HashOf(content))), [Delete(slug), Finish]);
    OneStep(s1, Finish, [BeginWrite(slug, content, Some(HashOf(content))), Delete(slug), Finish]);
    OneStep(START, BeginWrite(slug, content, None),
        [Finish, BeginWrite(slug, content, Some(HashOf(content))), Delete(slug), Finish]);
  }

  lemma OneStep(s: State, step: Step, later: seq<Step>)
    requires Enabled(s, step) && Legal(Next(s, step), later)
    ensures Legal(s, [step] + later) && After(s, [step] + later) == After(Next(s, step), later)
  {
    hide Enabled, Next;
    assert ([step] + later)[1..] == later;
  }
}
