/**
 The batch loop: every entry of the directory listing is looked at once, in
 listing order. A selected PNG ends in exactly one of three ways: its WEBP
 is written into the output folder, its output name is appended to the
 duplicate log because that name is already taken, or (when the encoder
 fails) its input name is appended to the missed log. A PNG on which
 opening (line 29) or resizing (line 42 or 45) raises stops the whole run,
 because both calls sit outside the `try` that guards the encoder. The log
 writes (lines 56, 63) and the prints (lines 51, 64) could also raise
 outside any `try`; the model treats them as unable to fail.

 The folder's contents are a set of names; the codec is an oracle that says,
 per entry, whether the content decodes, at what size, and whether saving
 it would succeed.
 */
module Batch {
  import opened Resize
  import opened Naming

  /**
   What the image codec makes of an entry's content. `Undecodable` stands for
   content on which opening (line 29, which reads only the header) or
   resizing (line 42 or 45, which loads the pixels) raises. `Decoded(size,
   false)` stands for content that gets past both but whose save (line 60)
   raises inside the `try`; that includes corrupt pixel data in an image
   small enough not to be resized, since the save is then the first load.
   `Image.ANTIALIAS` (lines 42, 45) no longer exists from Pillow 10 on; with
   such a version every image over 800 pixels is `Undecodable`, whatever its
   content.
   */
  datatype Image = Undecodable | Decoded(size: Size, saves: bool)

  /** One name of the directory listing with the codec's verdict on its content. */
  datatype Entry = Entry(name: string, image: Image)

  /** A file the run wrote into the output folder, with its pixel size. */
  datatype Output = Output(name: string, size: Size)

  /**
   The state threaded through the loop: names present in the output folder,
   the files written so far, and the two logs, in the order they were written.
   */
  datatype State = State(present: set<string>, written: seq<Output>, duplicates: seq<string>, missed: seq<string>)

  /** A run either finishes the listing or stops at an undecodable PNG. */
  datatype Outcome = Completed(state: State) | Aborted(state: State)

  /** The state at the start of a run: the folder's prior contents, nothing written, both logs empty. */
  function Start(existing: set<string>): State {
    State(existing, [], [], [])
  }

  /** Entries the loop processes (line 27). */
  predicate Selected(e: Entry) {
    IsPng(e.name)
  }

  /** A selected entry on which opening or resizing raises: the run does not survive it (lines 29, 42, 45). */
  predicate Fatal(e: Entry) {
    Selected(e) && e.image.Undecodable?
  }

  /** A selected entry that decodes and whose encoding succeeds. */
  predicate WouldSave(e: Entry) {
    Selected(e) && e.image.Decoded? && e.image.saves
  }

  /** The number of log and output entries recorded so far. */
  function Total(st: State): nat {
    |st.written| + |st.duplicates| + |st.missed|
  }

  /** `b` is `a` with things added: nothing present disappears, every log is only appended to. */
  ghost predicate Extends(a: State, b: State) {
    && a.present <= b.present
    && a.written <= b.written
    && a.duplicates <= b.duplicates
    && a.missed <= b.missed
  }

  /** Processing one entry (lines 27-64). */
  function Step(st: State, e: Entry): (r: Outcome)
    ensures r.Aborted? <==> Fatal(e)
    ensures r.Aborted? ==> r.state == st
    ensures !Selected(e) ==> r == Completed(st)
    ensures Extends(st, r.state)
    ensures Selected(e) && !Fatal(e) ==> Total(r.state) == Total(st) + 1
    ensures Selected(e) && !Fatal(e) ==>
              (OutputName(e.name) in st.present <==> r.state.duplicates == st.duplicates + [OutputName(e.name)])
    ensures r.state.written != st.written ==>
              && OutputName(e.name) !in st.present
              && r.state.written == st.written + [Output(OutputName(e.name), TargetSize(e.image.size))]
              && r.state.present == st.present + {OutputName(e.name)}
    ensures r.state.present != st.present ==> r.state.written != st.written
    ensures r.state.missed != st.missed ==>
              && OutputName(e.name) !in st.present
              && !WouldSave(e)
              && r.state.missed == st.missed + [e.name]
    ensures r.state.written != st.written <==> WouldSave(e) && OutputName(e.name) !in st.present
    ensures r.state.missed != st.missed <==>
              Selected(e) && e.image.Decoded? && !e.image.saves && OutputName(e.name) !in st.present
    ensures r.state.duplicates != st.duplicates ==> r.state.duplicates == st.duplicates + [OutputName(e.name)]
  {
    if !Selected(e) then
      Completed(st)
    else if e.image.Undecodable? then
      Aborted(st)
    else
      var out := OutputName(e.name);
      if out in st.present then
        Completed(st.(duplicates := st.duplicates + [out]))
      else if e.image.saves then
        Completed(st.(present := st.present + {out},
                      written := st.written + [Output(out, TargetSize(e.image.size))]))
      else
        Completed(st.(missed := st.missed + [e.name]))
  }

  /** How many entries of the listing pass the input filter. */
  function CountSelected(files: seq<Entry>): nat
    decreases |files|
  {
    if |files| == 0 then 0
    else CountSelected(files[..|files| - 1]) + (if Selected(files[|files| - 1]) then 1 else 0)
  }

  /** The loop over the listing (lines 25-64), from state `init`. */
  function Run(init: State, files: seq<Entry>): (r: Outcome)
    ensures Extends(init, r.state)
    ensures r.Completed? ==> Total(r.state) == Total(init) + CountSelected(files)
    decreases |files|
  {
    if |files| == 0 then
      Completed(init)
    else
      match Run(init, files[..|files| - 1])
      case Aborted(s) => Aborted(s)
      case Completed(s) => Step(s, files[|files| - 1])
  }

  /** One run of the script over a listing, given the output folder's prior contents. */
  function Convert(existing: set<string>, files: seq<Entry>): Outcome {
    Run(Start(existing), files)
  }

  // ---------------------------------------------------------------------------
  // A reference description of each entry's fate that does not replay the loop
  // ---------------------------------------------------------------------------

  /** Output names claimed by the entries of `files` that decode and save. */
  ghost function Claimed(files: seq<Entry>): set<string> {
    set j | 0 <= j < |files| && WouldSave(files[j]) :: OutputName(files[j].name)
  }

  /** The fate of one entry. */
  datatype Disposition = Skipped | Halts | Duplicate | Written | Missed

  /**
   The fate of entry `e` when the folder initially held `existing` and
   `earlier` were the entries before it: a name is taken when it was there
   at the start or some earlier entry saved to it.
   */
  ghost function Classify(existing: set<string>, earlier: seq<Entry>, e: Entry): Disposition {
    if !Selected(e) then Skipped
    else if e.image.Undecodable? then Halts
    else if OutputName(e.name) in existing + Claimed(earlier) then Duplicate
    else if e.image.saves then Written
    else Missed
  }

  /** The files written, in listing order, according to `Classify`. */
  ghost function WrittenOf(existing: set<string>, files: seq<Entry>): seq<Output>
    decreases |files|
  {
    if |files| == 0 then []
    else
      var earlier := files[..|files| - 1];
      var e := files[|files| - 1];
      WrittenOf(existing, earlier)
        + (if Classify(existing, earlier, e) == Written
           then [Output(OutputName(e.name), TargetSize(e.image.size))] else [])
  }

  /** The duplicate log, according to `Classify`: output names. */
  ghost function DuplicatesOf(existing: set<string>, files: seq<Entry>): seq<string>
    decreases |files|
  {
    if |files| == 0 then []
    else
      var earlier := files[..|files| - 1];
      var e := files[|files| - 1];
      DuplicatesOf(existing, earlier)
        + (if Classify(existing, earlier, e) == Duplicate then [OutputName(e.name)] else [])
  }

  /** The missed log, according to `Classify`: input names. */
  ghost function MissedOf(existing: set<string>, files: seq<Entry>): seq<string>
    decreases |files|
  {
    if |files| == 0 then []
    else
      var earlier := files[..|files| - 1];
      var e := files[|files| - 1];
      MissedOf(existing, earlier)
        + (if Classify(existing, earlier, e) == Missed then [e.name] else [])
  }

  /** Claiming distributes over appending one entry. */
  lemma ClaimedSnoc(earlier: seq<Entry>, e: Entry)
    ensures Claimed(earlier + [e]) == Claimed(earlier) + (if WouldSave(e) then {OutputName(e.name)} else {})
  {
    var files := earlier + [e];
    forall n | n in Claimed(files)
      ensures n in Claimed(earlier) + (if WouldSave(e) then {OutputName(e.name)} else {})
    {
      var j :| 0 <= j < |files| && WouldSave(files[j]) && OutputName(files[j].name) == n;
      if j < |earlier| {
        assert files[j] == earlier[j];
      }
    }
    forall n | n in Claimed(earlier)
      ensures n in Claimed(files)
    {
      var j :| 0 <= j < |earlier| && WouldSave(earlier[j]) && OutputName(earlier[j].name) == n;
      assert files[j] == earlier[j];
    }
    if WouldSave(e) {
      assert files[|earlier|] == e;
    }
  }

  /** One step of the loop extends the agreement with `Classify` by its entry. */
  lemma StepFollowsClassify(init: State, earlier: seq<Entry>, e: Entry, p: State)
    requires Agrees(init, earlier, p)
    requires !Fatal(e)
    ensures Step(p, e).Completed?
    ensures Agrees(init, earlier + [e], Step(p, e).state)
  {
    ClaimedSnoc(earlier, e);
    StepWrittenFollows(init, earlier, e, p);
    StepDuplicatesFollow(init, earlier, e, p);
    StepMissedFollows(init, earlier, e, p);
  }

  /** The written files after one more step are those `Classify` marks `Written`. */
  lemma StepWrittenFollows(init: State, earlier: seq<Entry>, e: Entry, p: State)
    requires p.present == init.present + Claimed(earlier)
    requires p.written == init.written + WrittenOf(init.present, earlier)
    requires !Fatal(e)
    ensures Step(p, e).state.written == init.written + WrittenOf(init.present, earlier + [e])
  {
    var files := earlier + [e];
    assert files[..|files| - 1] == earlier && files[|files| - 1] == e;
  }

  /** The duplicate log after one more step holds the output names `Classify` marks `Duplicate`. */
  lemma StepDuplicatesFollow(init: State, earlier: seq<Entry>, e: Entry, p: State)
    requires p.present == init.present + Claimed(earlier)
    requires p.duplicates == init.duplicates + DuplicatesOf(init.present, earlier)
    requires !Fatal(e)
    ensures Step(p, e).state.duplicates == init.duplicates + DuplicatesOf(init.present, earlier + [e])
  {
    var files := earlier + [e];
    assert files[..|files| - 1] == earlier && files[|files| - 1] == e;
  }

  /** The missed log after one more step holds the input names `Classify` marks `Missed`. */
  lemma StepMissedFollows(init: State, earlier: seq<Entry>, e: Entry, p: State)
    requires p.present == init.present + Claimed(earlier)
    requires p.missed == init.missed + MissedOf(init.present, earlier)
    requires !Fatal(e)
    ensures Step(p, e).state.missed == init.missed + MissedOf(init.present, earlier + [e])
  {
    var files := earlier + [e];
    assert files[..|files| - 1] == earlier && files[|files| - 1] == e;
  }

  /**
   State `s` holds what `Classify` assigns to the entries of `files`, on top
   of `init`: the folder gained exactly the claimed names, and each log gained
   exactly its entries, in listing order.
   */
  ghost predicate Agrees(init: State, files: seq<Entry>, s: State) {
    && s.present == init.present + Claimed(files)
    && s.written == init.written + WrittenOf(init.present, files)
    && s.duplicates == init.duplicates + DuplicatesOf(init.present, files)
    && s.missed == init.missed + MissedOf(init.present, files)
  }

  /**
   The loop agrees with the reference description: a completed run ends with
   exactly the files and log lines `Classify` assigns, in listing order, and
   the folder holds the prior names plus every name some entry saved to.
   */
  lemma {:induction false} RunMatchesClassification(init: State, files: seq<Entry>)
    requires Run(init, files).Completed?
    ensures Agrees(init, files, Run(init, files).state)
    decreases |files|
  {
    if |files| == 0 {
      assert Claimed(files) == {};
    } else {
      var earlier := files[..|files| - 1];
      var e := files[|files| - 1];
      assert Run(init, earlier).Completed?;
      RunMatchesClassification(init, earlier);
      var p := Run(init, earlier).state;
      assert Run(init, files) == Step(p, e);
      StepFollowsClassify(init, earlier, e, p);
      assert earlier + [e] == files;
    }
  }

  /** A run stops exactly when the listing holds a selected entry that does not decode. */
  lemma {:induction false} AbortsIffUndecodable(init: State, files: seq<Entry>)
    ensures Run(init, files).Aborted? <==> exists i :: 0 <= i < |files| && Fatal(files[i])
    decreases |files|
  {
    if |files| > 0 {
      var earlier := files[..|files| - 1];
      AbortsIffUndecodable(init, earlier);
      if exists i :: 0 <= i < |earlier| && Fatal(earlier[i]) {
        var i :| 0 <= i < |earlier| && Fatal(earlier[i]);
        assert files[i] == earlier[i];
      } else if exists i :: 0 <= i < |files| && Fatal(files[i]) {
        var i :| 0 <= i < |files| && Fatal(files[i]);
        if i < |earlier| {
          assert earlier[i] == files[i];
        }
      }
    }
  }

  /**
   When the run stops, it stops at the first undecodable PNG: what was
   written and logged is exactly what the entries before it produced.
   */
  lemma {:induction false} AbortKeepsPrefix(init: State, files: seq<Entry>, i: nat)
    requires i < |files| && Fatal(files[i])
    requires forall j :: 0 <= j < i ==> !Fatal(files[j])
    ensures Run(init, files[..i]).Completed?
    ensures Run(init, files) == Aborted(Run(init, files[..i]).state)
    decreases |files|
  {
    AbortsIffUndecodable(init, files[..i]);
    var earlier := files[..|files| - 1];
    if i < |earlier| {
      assert earlier[..i] == files[..i];
      AbortKeepsPrefix(init, earlier, i);
    } else {
      assert earlier == files[..i];
    }
  }

  /**
   First claimant wins (lines 54-56): once an earlier entry has saved to an
   output name, every later selected entry mapping to that name that decodes
   is logged as a duplicate and never written. A later entry that is
   `Undecodable` ends the run before line 54 instead.
   */
  lemma FirstClaimantWins(existing: set<string>, files: seq<Entry>, i: nat, j: nat)
    requires i < j < |files|
    requires WouldSave(files[i]) && Selected(files[j]) && !Fatal(files[j])
    requires OutputName(files[i].name) == OutputName(files[j].name)
    ensures Classify(existing, files[..j], files[j]) == Duplicate
  {
    assert files[..j][i] == files[i];
  }

  /**
   The files written between states `init` and `s` carry names that were not
   present in `init`, are present in `s`, and are pairwise distinct.
   */
  ghost predicate FreshWrites(init: State, s: State) {
    && (forall a :: |init.written| <= a < |s.written| ==>
          s.written[a].name !in init.present && s.written[a].name in s.present)
    && (forall a, b :: |init.written| <= a < b < |s.written| ==> s.written[a].name != s.written[b].name)
  }

  /**
   Nothing is overwritten: every file a run writes has a name that was not in
   the folder beforehand, no name is written twice, and every written name is
   present afterwards.
   */
  lemma {:induction false} WritesAreFresh(init: State, files: seq<Entry>)
    ensures FreshWrites(init, Run(init, files).state)
    decreases |files|
  {
    if |files| > 0 {
      var earlier := files[..|files| - 1];
      WritesAreFresh(init, earlier);
      var p := Run(init, earlier).state;
      assert FreshWrites(init, p);
      var s := Run(init, files).state;
      if Run(init, earlier).Completed? && s.written != p.written {
        var e := files[|files| - 1];
        var out := OutputName(e.name);
        assert Run(init, files) == Step(p, e);
        assert s.written == p.written + [Output(out, TargetSize(e.image.size))];
        assert out !in p.present && out in s.present;
        forall a | |init.written| <= a < |s.written|
          ensures s.written[a].name !in init.present && s.written[a].name in s.present
        {
          if a < |p.written| {
            assert s.written[a] == p.written[a];
            assert p.written[a].name in p.present;
          } else {
            assert s.written[a].name == out;
            assert init.present <= p.present;
          }
        }
        forall a, b | |init.written| <= a < b < |s.written|
          ensures s.written[a].name != s.written[b].name
        {
          assert s.written[a] == p.written[a];
          if b < |p.written| {
            assert s.written[b] == p.written[b];
            assert p.written[a].name != p.written[b].name;
          } else {
            assert s.written[a].name in p.present;
            assert s.written[b].name == out;
          }
        }
      }
    }
  }

  /** A listing without selected entries changes nothing: no file, no log line. */
  lemma {:induction false} NoPngNoEffect(init: State, files: seq<Entry>)
    requires forall i :: 0 <= i < |files| ==> !Selected(files[i])
    ensures Run(init, files) == Completed(init)
    decreases |files|
  {
    if |files| > 0 {
      NoPngNoEffect(init, files[..|files| - 1]);
    }
  }

  /** The output names of the selected entries, in listing order. */
  ghost function OutputsOf(files: seq<Entry>): seq<string>
    decreases |files|
  {
    if |files| == 0 then []
    else
      var e := files[|files| - 1];
      OutputsOf(files[..|files| - 1]) + (if Selected(e) then [OutputName(e.name)] else [])
  }

  /**
   When every selected entry decodes and its output name is already taken,
   the run writes nothing, misses nothing, and logs every selected entry's
   output name as a duplicate, in listing order.
   */
  lemma {:induction false} AllTakenAllDuplicates(init: State, files: seq<Entry>)
    requires forall i :: 0 <= i < |files| && Selected(files[i]) ==>
               !Fatal(files[i]) && OutputName(files[i].name) in init.present
    ensures Run(init, files) == Completed(init.(duplicates := init.duplicates + OutputsOf(files)))
    decreases |files|
  {
    if |files| > 0 {
      var earlier := files[..|files| - 1];
      AllTakenAllDuplicates(init, earlier);
    }
  }

  /**
   Every selected entry of `files` is accounted for in state `s` reached from
   `init`: its output name is in the folder, or its input name is among the
   lines the missed log gained since `init`.
   */
  ghost predicate Covered(init: State, files: seq<Entry>, s: State)
    requires |init.missed| <= |s.missed|
  {
    forall i :: 0 <= i < |files| && Selected(files[i]) ==>
      && !Fatal(files[i])
      && (OutputName(files[i].name) in s.present || files[i].name in s.missed[|init.missed|..])
  }

  /**
   After a completed run every selected entry decoded, and either its output
   name is in the folder or its input name was appended to the missed log.
   */
  lemma {:induction false} CompletedRunCovers(init: State, files: seq<Entry>)
    requires Run(init, files).Completed?
    ensures Covered(init, files, Run(init, files).state)
    decreases |files|
  {
    if |files| > 0 {
      var earlier := files[..|files| - 1];
      var e := files[|files| - 1];
      assert Run(init, earlier).Completed?;
      CompletedRunCovers(init, earlier);
      var p := Run(init, earlier).state;
      assert Run(init, files) == Step(p, e);
      CoveredStep(init, earlier, e, p);
      assert earlier + [e] == files;
    }
  }

  /** One more step keeps every selected entry accounted for, its own entry included. */
  lemma CoveredStep(init: State, earlier: seq<Entry>, e: Entry, p: State)
    requires init.missed <= p.missed
    requires Covered(init, earlier, p)
    requires !Fatal(e)
    ensures Step(p, e).Completed?
    ensures Covered(init, earlier + [e], Step(p, e).state)
  {
    var files := earlier + [e];
    var s := Step(p, e).state;
    var k := |init.missed|;
    forall i | 0 <= i < |files| && Selected(files[i])
      ensures OutputName(files[i].name) in s.present || files[i].name in s.missed[k..]
    {
      if i < |earlier| {
        assert files[i] == earlier[i];
        if files[i].name in p.missed[k..] {
          var j :| k <= j < |p.missed| && p.missed[j] == files[i].name;
          assert s.missed[j] == p.missed[j];
        }
      } else if OutputName(e.name) !in p.present && !e.image.saves {
        assert s.missed[|s.missed| - 1] == e.name;
      }
    }
  }

  /**
   Running the script a second time over the same listing, without clearing
   the output folder, after a first run that completed and missed nothing:
   nothing new is written and every PNG is logged as a duplicate.
   */
  lemma SecondRunAllDuplicates(existing: set<string>, files: seq<Entry>)
    requires Convert(existing, files).Completed?
    requires Convert(existing, files).state.missed == []
    ensures var first := Convert(existing, files).state;
            Convert(first.present, files) == Completed(State(first.present, [], OutputsOf(files), []))
  {
    CompletedRunCovers(Start(existing), files);
    var first := Convert(existing, files).state;
    AllTakenAllDuplicates(Start(first.present), files);
  }

  /** A selected entry that decodes and saves to a free name is written, and nothing else changes. */
  lemma WriteStep(st: State, name: string, size: Size)
    requires IsPng(name) && OutputName(name) !in st.present
    ensures Step(st, Entry(name, Decoded(size, true)))
            == Completed(State(st.present + {OutputName(name)},
                               st.written + [Output(OutputName(name), TargetSize(size))],
                               st.duplicates, st.missed))
  {
  }

  /** A listing of two entries is the second step applied after the first. */
  lemma RunPair(init: State, a: Entry, b: Entry)
    ensures Run(init, [a, b]) == match Step(init, a)
                                 case Aborted(s) => Aborted(s)
                                 case Completed(s) => Step(s, b)
  {
    assert [a, b][..1] == [a];
    assert [a][..0] == [];
    assert Run(init, [a]) == Step(init, a);
  }

  /**
   Two selected, encodable entries whose output names coincide, into an empty
   folder: the first is written, the second is logged as a duplicate under
   the shared output name. `a.png` followed by `a.PNG` is such a pair.
   */
  lemma SameTargetSecondIsDuplicate(n1: string, n2: string, first: Size, second: Size)
    requires IsPng(n1) && IsPng(n2) && OutputName(n1) == OutputName(n2)
    ensures Convert({}, [Entry(n1, Decoded(first, true)), Entry(n2, Decoded(second, true))])
            == Completed(State({OutputName(n1)}, [Output(OutputName(n1), TargetSize(first))], [OutputName(n1)], []))
  {
    var out := OutputName(n1);
    WriteStep(Start({}), n1, first);
    var s1 := State({out}, [Output(out, TargetSize(first))], [], []);
    assert Step(Start({}), Entry(n1, Decoded(first, true))) == Completed(s1) by {
      assert {} + {out} == {out};
    }
    RunPair(Start({}), Entry(n1, Decoded(first, true)), Entry(n2, Decoded(second, true)));
  }

  /**
   Two selected, encodable entries with different output names, into an
   empty folder: both are written, each at its target size, and both logs
   stay empty.
   */
  lemma DistinctTargetsBothWritten(n1: string, n2: string, first: Size, second: Size)
    requires IsPng(n1) && IsPng(n2) && OutputName(n1) != OutputName(n2)
    ensures Convert({}, [Entry(n1, Decoded(first, true)), Entry(n2, Decoded(second, true))])
            == Completed(State({OutputName(n1), OutputName(n2)},
                               [Output(OutputName(n1), TargetSize(first)), Output(OutputName(n2), TargetSize(second))],
                               [], []))
  {
    var o1, o2 := OutputName(n1), OutputName(n2);
    var x := Entry(n1, Decoded(first, true));
    var y := Entry(n2, Decoded(second, true));
    WriteStep(Start({}), n1, first);
    var s1 := State({o1}, [Output(o1, TargetSize(first))], [], []);
    assert Step(Start({}), x) == Completed(s1) by {
      assert {} + {o1} == {o1};
    }
    WriteStep(s1, n2, second);
    var s2 := State({o1, o2}, [Output(o1, TargetSize(first)), Output(o2, TargetSize(second))], [], []);
    assert Step(s1, y) == Completed(s2) by {
      assert {o1} + {o2} == {o1, o2};
    }
    RunPair(Start({}), x, y);
  }

  /**
   `photo.png` of 1600 by 900 and `icon.PNG` of 200 by 200 into an empty
   folder: `photo.webp` at 800 by 450, `icon.webp` unscaled, both logs empty.
   */
  lemma PhotoAndIcon()
    ensures Convert({}, [Entry("photo.png", Decoded(Size(1600, 900), true)),
                         Entry("icon.PNG", Decoded(Size(200, 200), true))])
            == Completed(State({"photo.webp", "icon.webp"},
                               [Output("photo.webp", Size(800, 450)), Output("icon.webp", Size(200, 200))],
                               [], []))
  {
    OutputNamePhotoIcon();
    ScenarioSizes();
    DistinctTargetsBothWritten("photo.png", "icon.PNG", Size(1600, 900), Size(200, 200));
  }
}
