/** The validator of an OpenTrails bundle (open_trails/validators.py).

    Each of the five canonical files is checked for existence, in a fixed
    order; a missing mandatory file yields an error and a missing areas file a
    warning. The per-file content checks are empty in the source, so an
    existing file contributes no message. The collected messages are then
    de-duplicated in order of first occurrence, and the bundle passes exactly
    when no message is an error. */
module Validators {
  import opened Sequences

  /** The severity of a diagnostic. The existence checks emit only errors
      and warnings; the de-duplication loop accepts any severity. */
  datatype Severity = Error | Warning | Success

  /** A diagnostic `(severity, code, text)`. */
  datatype Message = Message(severity: Severity, code: string, text: string)

  /** The five files of an OpenTrails bundle. */
  datatype OpenTrailsFile = TrailSegments | NamedTrails | Trailheads | Stewards | Areas

  /** Which files exist on disk; stands for the five `os.path.exists` calls. */
  datatype Presence = Presence(
    trailSegments: bool,
    namedTrails: bool,
    trailheads: bool,
    stewards: bool,
    areas: bool)

  function Present(p: Presence, f: OpenTrailsFile): bool {
    match f
    case TrailSegments => p.trailSegments
    case NamedTrails => p.namedTrails
    case Trailheads => p.trailheads
    case Stewards => p.stewards
    case Areas => p.areas
  }

  /** The order in which the files are checked. */
  const CheckOrder: seq<OpenTrailsFile> := [TrailSegments, NamedTrails, Trailheads, Stewards, Areas]

  /** Every file appears once in the check order. */
  lemma CheckOrderComplete(f: OpenTrailsFile)
    ensures f in CheckOrder
    ensures NoDuplicates(CheckOrder)
  {
  }

  /** The message emitted when file `f` does not exist. */
  function MissingFileMessage(f: OpenTrailsFile): Message {
    match f
    case TrailSegments =>
      Message(Error, "missing-file-trail-segments", "Could not find required file trail_segments.geojson.")
    case NamedTrails =>
      Message(Error, "missing-file-named-trails", "Could not find required file named_trails.csv.")
    case Trailheads =>
      Message(Error, "missing-file-trailheads", "Could not find required file trailheads.geojson.")
    case Stewards =>
      Message(Error, "missing-file-stewards", "Could not find required file stewards.csv.")
    case Areas =>
      Message(Warning, "missing-file-areas", "Could not find optional file areas.geojson.")
  }

  /** Only the areas file is optional, and every file has its own code. */
  lemma MissingFileMessageFacts(f: OpenTrailsFile, g: OpenTrailsFile)
    ensures MissingFileMessage(f).severity == Error <==> f != Areas
    ensures MissingFileMessage(f).severity == Warning <==> f == Areas
    ensures MissingFileMessage(f).code == MissingFileMessage(g).code ==> f == g
  {
  }

  /** The content check of an existing file. Every such check has an empty
      body in the source, so the message list is passed on unchanged. */
  function CheckFileContents(messages: seq<Message>, f: OpenTrailsFile): seq<Message> {
    messages
  }

  /** One `if not exists(path): ... else: check_...(messages, path)` step. */
  function CheckFile(messages: seq<Message>, found: bool, f: OpenTrailsFile): seq<Message> {
    if !found then messages + [MissingFileMessage(f)] else CheckFileContents(messages, f)
  }

  /** The five existence checks run in `CheckOrder`, each appending to the
      message list. */
  function CollectFrom(messages: seq<Message>, p: Presence, files: seq<OpenTrailsFile>): seq<Message>
    decreases files
  {
    if |files| == 0 then messages
    else CollectFrom(CheckFile(messages, Present(p, files[0]), files[0]), p, files[1..])
  }

  /** The messages collected by the five existence checks, before
      de-duplication. */
  function CollectMessages(p: Presence): seq<Message> {
    CollectFrom([], p, CheckOrder)
  }

  /** The message file `f` contributes to the report: one when it is
      missing, none when it exists. */
  function Emitted(p: Presence, f: OpenTrailsFile): seq<Message> {
    if !Present(p, f) then [MissingFileMessage(f)] else []
  }

  /** Reference description: one missing-file message per absent file, in the
      order the files are listed. */
  function MissingIn(p: Presence, files: seq<OpenTrailsFile>): seq<Message> {
    if |files| == 0 then [] else Emitted(p, files[0]) + MissingIn(p, files[1..])
  }

  /** A missing-file message names its file. */
  lemma MissingFileMessageInjective(f: OpenTrailsFile, g: OpenTrailsFile)
    requires MissingFileMessage(f) == MissingFileMessage(g)
    ensures f == g
  {
    MissingFileMessageFacts(f, g);
  }

  /** The reference messages name exactly the absent files among `files`. */
  lemma {:induction false} MissingInMember(p: Presence, files: seq<OpenTrailsFile>, f: OpenTrailsFile)
    ensures MissingFileMessage(f) in MissingIn(p, files) <==> f in files && !Present(p, f)
  {
    if |files| > 0 {
      MissingInMember(p, files[1..], f);
      assert f in files <==> f == files[0] || f in files[1..];
      if MissingFileMessage(f) in Emitted(p, files[0]) {
        MissingFileMessageInjective(f, files[0]);
      }
    }
  }

  /** Listing each file once yields each message once. */
  lemma {:induction false} MissingInDistinct(p: Presence, files: seq<OpenTrailsFile>)
    requires NoDuplicates(files)
    ensures NoDuplicates(MissingIn(p, files))
  {
    if |files| > 0 {
      assert NoDuplicates(files[1..]) by {
        forall i, j | 0 <= i < j < |files| - 1
          ensures files[1..][i] != files[1..][j]
        {
          assert files[i + 1] != files[j + 1];
        }
      }
      MissingInDistinct(p, files[1..]);
      MissingInMember(p, files[1..], files[0]);
      NoDuplicatesAppend(Emitted(p, files[0]), MissingIn(p, files[1..]));
    }
  }

  ghost predicate HasError(ms: seq<Message>) {
    exists i :: 0 <= i < |ms| && ms[i].severity == Error
  }

  lemma HasErrorAppend(a: seq<Message>, b: seq<Message>)
    ensures HasError(a + b) <==> HasError(a) || HasError(b)
  {
    if HasError(a + b) {
      var k :| 0 <= k < |a + b| && (a + b)[k].severity == Error;
      if k >= |a| {
        assert b[k - |a|].severity == Error;
      } else {
        assert a[k].severity == Error;
      }
    }
    if HasError(a) {
      var k :| 0 <= k < |a| && a[k].severity == Error;
      assert (a + b)[k] == a[k];
    }
    if HasError(b) {
      var k :| 0 <= k < |b| && b[k].severity == Error;
      assert (a + b)[k + |a|] == b[k];
    }
  }

  /** Some mandatory file among `files` is absent. */
  ghost predicate MandatoryMissing(p: Presence, files: seq<OpenTrailsFile>) {
    |files| > 0 && ((files[0] != Areas && !Present(p, files[0])) || MandatoryMissing(p, files[1..]))
  }

  /** The reference messages contain an error exactly when a mandatory file
      is absent. */
  lemma {:induction false} MissingInHasError(p: Presence, files: seq<OpenTrailsFile>)
    ensures HasError(MissingIn(p, files)) <==> MandatoryMissing(p, files)
  {
    if |files| > 0 {
      MissingInHasError(p, files[1..]);
      HasErrorAppend(Emitted(p, files[0]), MissingIn(p, files[1..]));
      MissingFileMessageFacts(files[0], files[0]);
      assert HasError(Emitted(p, files[0])) <==> files[0] != Areas && !Present(p, files[0]) by {
        if !Present(p, files[0]) {
          assert Emitted(p, files[0])[0] == MissingFileMessage(files[0]);
        }
      }
    }
  }

  /** One existence check appends the check's reference message. */
  lemma CheckFileAppends(m: seq<Message>, p: Presence, f: OpenTrailsFile)
    ensures CheckFile(m, Present(p, f), f) == m + Emitted(p, f)
  {
    if Present(p, f) {
      assert m + [] == m;
    }
  }

  /** Running the checks over `files` appends the reference messages. */
  lemma {:induction false} CollectFromAppends(m: seq<Message>, p: Presence, files: seq<OpenTrailsFile>)
    ensures CollectFrom(m, p, files) == m + MissingIn(p, files)
    decreases files
  {
    if |files| == 0 {
      assert m + [] == m;
    } else {
      CheckFileAppends(m, p, files[0]);
      CollectFromAppends(m + Emitted(p, files[0]), p, files[1..]);
      assert m + Emitted(p, files[0]) + MissingIn(p, files[1..])
          == m + (Emitted(p, files[0]) + MissingIn(p, files[1..]));
    }
  }

  /** The collected messages are exactly the reference messages. */
  lemma CollectMessagesInCheckOrder(p: Presence)
    ensures CollectMessages(p) == MissingIn(p, CheckOrder)
  {
    CollectFromAppends([], p, CheckOrder);
    assert [] + MissingIn(p, CheckOrder) == MissingIn(p, CheckOrder);
  }

  /** The closing loop of `check_open_trails`: keep each message the first
      time it is seen, and fail as soon as any message is an error. */
  method DedupMessages(messages: seq<Message>) returns (deduped: seq<Message>, passed: bool)
    ensures deduped == Dedup(messages)
    ensures NoDuplicates(deduped)
    ensures forall m :: m in deduped <==> m in messages
    ensures forall i, j :: 0 <= i < j < |deduped| ==>
              IndexOf(messages, deduped[i]) < IndexOf(messages, deduped[j])
    ensures passed <==> !HasError(messages)
    ensures passed <==> !HasError(deduped)
  {
    deduped := [];
    passed := true;
    var i := 0;
    while i < |messages|
      invariant 0 <= i <= |messages|
      invariant deduped == Dedup(messages[..i])
      invariant passed <==> !HasError(messages[..i])
    {
      var message := messages[i];
      assert messages[..i + 1] == messages[..i] + [message];
      assert messages[..i + 1][..i] == messages[..i];
      if message !in deduped {
        deduped := deduped + [message];
      }
      if message.severity == Error {
        passed := false;
      }
      i := i + 1;
    }
    assert messages[..i] == messages;
    DedupFirstSeenOrder(messages);
    if HasError(deduped) {
      var k :| 0 <= k < |deduped| && deduped[k].severity == Error;
      assert deduped[k] in messages;
    }
    if HasError(messages) {
      var k :| 0 <= k < |messages| && messages[k].severity == Error;
      assert messages[k] in deduped;
    }
  }

  lemma MandatoryMissingInCheckOrder(p: Presence)
    ensures MandatoryMissing(p, CheckOrder) <==>
              !(p.trailSegments && p.namedTrails && p.trailheads && p.stewards)
  {
    var o1 := [NamedTrails, Trailheads, Stewards, Areas];
    var o2 := [Trailheads, Stewards, Areas];
    var o3 := [Stewards, Areas];
    var o4 := [Areas];
    assert CheckOrder[1..] == o1 && o1[1..] == o2 && o2[1..] == o3 && o3[1..] == o4;
    assert !MandatoryMissing(p, o4) by {
      assert o4[1..] == [];
    }
    assert MandatoryMissing(p, o3) <==> !p.stewards;
    assert MandatoryMissing(p, o2) <==> !p.trailheads || !p.stewards;
    assert MandatoryMissing(p, o1) <==> !p.namedTrails || !p.trailheads || !p.stewards;
  }

  /** `check_open_trails`: the de-duplicated messages and the pass flag. */
  method CheckOpenTrails(p: Presence) returns (messages: seq<Message>, passed: bool)
    ensures messages == MissingIn(p, CheckOrder)
    ensures forall f :: MissingFileMessage(f) in messages <==> !Present(p, f)
    ensures NoDuplicates(messages)
    ensures passed <==> p.trailSegments && p.namedTrails && p.trailheads && p.stewards
    ensures passed <==> !HasError(messages)
    ensures p.trailSegments && p.namedTrails && p.trailheads && p.stewards && p.areas ==>
              messages == [] && passed
    ensures p.trailSegments && p.namedTrails && p.trailheads && p.stewards && !p.areas ==>
              messages == [MissingFileMessage(Areas)] && passed
  {
    var collected := CollectMessages(p);
    CollectMessagesInCheckOrder(p);
    CheckOrderComplete(TrailSegments);
    MissingInDistinct(p, CheckOrder);
    DedupOfDistinct(collected);
    messages, passed := DedupMessages(collected);
    forall f
      ensures MissingFileMessage(f) in messages <==> !Present(p, f)
    {
      CheckOrderComplete(f);
      MissingInMember(p, CheckOrder, f);
    }
    MissingInHasError(p, CheckOrder);
    MandatoryMissingInCheckOrder(p);
  }
}
