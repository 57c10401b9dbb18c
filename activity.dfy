/**
 * Activity detection for the tree view: each time a terminal's row is drawn its
 * visible content is hashed; a change of hash while the terminal is not selected
 * marks it active, and the hint next to it stays green for twenty seconds.
 */
module Activity {
  import opened Wrappers
  import opened Registry

  /** How long a terminal counts as active after its content changed, in milliseconds. */
  const ActiveDuration: int := 20000

  /** The colour of a terminal's hint: green while active, grey otherwise. */
  datatype Hint = ActiveGreen | IdleGrey

  /** `getHintColor(elapsedTime:)`. */
  function HintColor(elapsed: int): Hint {
    if elapsed < ActiveDuration then ActiveGreen else IdleGrey
  }

  /** The hint is green exactly for elapsed times below twenty seconds. */
  lemma HintThreshold(elapsed: int)
    ensures HintColor(elapsed) == ActiveGreen <==> elapsed < ActiveDuration
    ensures HintColor(ActiveDuration - 1) == ActiveGreen && HintColor(ActiveDuration) == IdleGrey
  {
  }

  /** The state after one sample of content hash `currentHash` at time `now`. */
  function Sampled(st: TerminalState, currentHash: int, isSelected: bool, now: int): (r: TerminalState)
    ensures r.id == st.id && r.terminalView == st.terminalView && r.currentDirectory == st.currentDirectory
    ensures r.title == st.title && r.projectName == st.projectName
    ensures r.lastContentHash == Some(currentHash)
  {
    match st.lastContentHash
    case Some(lastHash) =>
      if lastHash != currentHash then
        st.(lastContentHash := Some(currentHash),
            lastActivityTime := if isSelected then st.lastActivityTime else now)
      else st
    case None => st.(lastContentHash := Some(currentHash))
  }

  /** The hint drawn for a terminal: grey while it is selected, else by elapsed time. */
  function DisplayedHint(st: TerminalState, isSelected: bool, now: int): Hint {
    if isSelected then IdleGrey else HintColor(now - st.lastActivityTime)
  }

  /** The first sample only records the hash; it never marks the terminal active. */
  lemma FirstSampleOnlyRecords(st: TerminalState, currentHash: int, isSelected: bool, now: int)
    requires st.lastContentHash == None
    ensures Sampled(st, currentHash, isSelected, now) == st.(lastContentHash := Some(currentHash))
    ensures Sampled(st, currentHash, isSelected, now).lastActivityTime == st.lastActivityTime
  {
  }

  /** The activity time moves to `now` exactly when a recorded hash changed and the
      terminal is not selected. */
  lemma ActivityTimeRule(st: TerminalState, currentHash: int, isSelected: bool, now: int)
    ensures Sampled(st, currentHash, isSelected, now).lastActivityTime ==
      if st.lastContentHash.Some? && st.lastContentHash.value != currentHash && !isSelected
      then now else st.lastActivityTime
    ensures st.lastContentHash == Some(currentHash) ==> Sampled(st, currentHash, isSelected, now) == st
  {
  }

  /** A selected terminal always shows the grey hint. */
  lemma SelectedIsGrey(st: TerminalState, now: int)
    ensures DisplayedHint(st, true, now) == IdleGrey
  {
  }

  /** Consecutive samples: one hash and one time per drawing. */
  datatype Sample = Sample(hash: int, isSelected: bool, now: int)

  function SampledAll(st: TerminalState, samples: seq<Sample>): (r: TerminalState)
    decreases |samples|
  {
    if samples == [] then st
    else
      var s := Last(samples);
      Sampled(SampledAll(st, DropLast(samples)), s.hash, s.isSelected, s.now)
  }

  /** A terminal whose content never changes keeps its activity time through any run of
      samples (so one created with the distant-past time never turns green). */
  lemma {:induction false} UnchangedContentStaysIdle(st: TerminalState, h: int, samples: seq<Sample>)
    requires st.lastContentHash == None || st.lastContentHash == Some(h)
    requires forall k :: 0 <= k < |samples| ==> samples[k].hash == h
    ensures SampledAll(st, samples).lastActivityTime == st.lastActivityTime
    ensures samples != [] ==> SampledAll(st, samples).lastContentHash == Some(h)
    decreases |samples|
  {
    if samples != [] {
      UnchangedContentStaysIdle(st, h, DropLast(samples));
    }
  }

  /** A terminal created with the distant-past time and sampled with unchanging content
      shows the grey hint at any time from twenty seconds after that date. */
  lemma FreshTerminalWithStillContentIsGrey(st: TerminalState, h: int, samples: seq<Sample>, now: int)
    requires st.lastActivityTime == DistantPast && st.lastContentHash == None
    requires forall k :: 0 <= k < |samples| ==> samples[k].hash == h
    requires now >= DistantPast + ActiveDuration
    ensures DisplayedHint(SampledAll(st, samples), false, now) == IdleGrey
  {
    UnchangedContentStaysIdle(st, h, samples);
  }

  /** A change of content seen at time `t0` while the terminal is not selected makes it
      green for every later drawing before `t0 + 20 s` and grey from then on, as long as
      the content stays the same. */
  lemma ChangeIsActiveForTwentySeconds(st: TerminalState, h: int, t0: int, later: seq<Sample>, now: int)
    requires st.lastContentHash.Some? && st.lastContentHash.value != h
    requires forall k :: 0 <= k < |later| ==> later[k].hash == h
    ensures var after := SampledAll(st, [Sample(h, false, t0)] + later);
      after.lastActivityTime == t0 &&
      (DisplayedHint(after, false, now) == ActiveGreen <==> now - t0 < ActiveDuration)
  {
    var first := Sampled(st, h, false, t0);
    assert first.lastActivityTime == t0 && first.lastContentHash == Some(h);
    SampledAfterFirst(st, Sample(h, false, t0), later);
    UnchangedContentStaysIdle(first, h, later);
  }

  lemma {:induction false} SampledAfterFirst(st: TerminalState, first: Sample, later: seq<Sample>)
    ensures SampledAll(st, [first] + later) == SampledAll(Sampled(st, first.hash, first.isSelected, first.now), later)
    decreases |later|
  {
    if later == [] {
      assert DropLast([first]) == [];
    } else {
      assert DropLast([first] + later) == [first] + DropLast(later);
      assert Last([first] + later) == Last(later);
      SampledAfterFirst(st, first, DropLast(later));
    }
  }
}
