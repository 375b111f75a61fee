/** The "Generate" button: a sequential pass over the registry that asks the
    external generator for metadata of every record whose title is empty.
    The generator is injected: `outcomes[i]` is what the call for record `i`
    would produce. A thrown error (network failure, non-success status,
    unexpected response shape, unparsable JSON) is `Failure`; a falsy parse
    result is `NullResult`; anything else is `Success`. */
module Generation {
  import opened Wrappers
  import opened Registry

  datatype Outcome =
    | Failure
    | NullResult
    | Success(title: string, description: string, keywords: seq<string>)

  /** The records after the pass, and the position of the record whose call
      failed, if one did. */
  datatype Pass = Pass(images: seq<Image>, abortedAt: Option<nat>)

  /** How a click on the button ends. */
  datatype RunStatus = NeedsApiKey | Completed | Aborted(at: nat)

  datatype Run = Run(registry: Registry, status: RunStatus)

  /** Record `i` is processed and its call fails: the loop stops there. */
  predicate FailsAt(images: seq<Image>, outcomes: seq<Outcome>, i: int)
    requires |outcomes| == |images|
  {
    0 <= i < |images| && images[i].title == "" && outcomes[i].Failure?
  }

  /** The loop body for a record whose call did not throw: records with a
      title are skipped; a success overwrites title, description and
      keywords; a falsy result leaves the record as it was. */
  function ApplyOutcome(img: Image, o: Outcome): (r: Image)
    ensures r.id == img.id && r.file == img.file
    ensures img.title != "" || !o.Success? ==> r == img
    ensures img.title == "" && o.Success? ==>
              r.title == o.title && r.description == o.description && r.keywords == o.keywords
  {
    if img.title == "" && o.Success? then
      img.(title := o.title, description := o.description, keywords := o.keywords)
    else img
  }

  /** Where the pass stopped: the failing record, or the end. */
  function StopIndex(p: Pass, n: nat): nat {
    p.abortedAt.GetOr(n)
  }

  /** What a pass over `images` must produce, stated position by position:
      it stops at the first record that is processed and fails (or at the
      end); every record before that point has its outcome applied, and the
      failing record and everything after it are left as they were. */
  predicate PassMeets(images: seq<Image>, outcomes: seq<Outcome>, p: Pass)
    requires |outcomes| == |images|
  {
    var stop := StopIndex(p, |images|);
    && |p.images| == |images|
    && stop <= |images|
    && (p.abortedAt.Some? ==> FailsAt(images, outcomes, p.abortedAt.value))
    && (forall j :: 0 <= j < stop ==> !FailsAt(images, outcomes, j))
    && (forall j :: 0 <= j < |images| ==>
          p.images[j] == if j < stop then ApplyOutcome(images[j], outcomes[j]) else images[j])
  }

  /** The loop over the records as a fold with abort-on-first-failure. */
  function GenerationPass(images: seq<Image>, outcomes: seq<Outcome>): (p: Pass)
    requires |outcomes| == |images|
    ensures PassMeets(images, outcomes, p)
  {
    if |images| == 0 then Pass([], None)
    else if FailsAt(images, outcomes, 0) then Pass(images, Some(0))
    else
      var rest := GenerationPass(images[1..], outcomes[1..]);
      PassStep(images, outcomes, rest);
      Prepend(ApplyOutcome(images[0], outcomes[0]), rest)
  }

  /** A pass over the remaining records, after `first` was handled without
      failure. */
  function Prepend(first: Image, rest: Pass): Pass {
    Pass([first] + rest.images,
         match rest.abortedAt
         case None => None
         case Some(k) => Some(k + 1))
  }

  /** One step of the fold: when the first record does not fail, a pass over
      the rest that meets the description extends to one over all records. */
  lemma PassStep(images: seq<Image>, outcomes: seq<Outcome>, rest: Pass)
    requires |outcomes| == |images| > 0
    requires !FailsAt(images, outcomes, 0)
    requires PassMeets(images[1..], outcomes[1..], rest)
    ensures PassMeets(images, outcomes, Prepend(ApplyOutcome(images[0], outcomes[0]), rest))
  {
    var p := Prepend(ApplyOutcome(images[0], outcomes[0]), rest);
    assert StopIndex(p, |images|) == StopIndex(rest, |images| - 1) + 1;
    assert forall j :: 1 <= j < |images| ==>
             FailsAt(images, outcomes, j) == FailsAt(images[1..], outcomes[1..], j - 1);
    assert forall j :: 1 <= j < |images| ==> p.images[j] == rest.images[j - 1];
  }

  /** A pass that meets the description stops no later than any record
      whose call fails. */
  lemma StopNoLaterThanFailure(images: seq<Image>, outcomes: seq<Outcome>, p: Pass, j: int)
    requires |outcomes| == |images|
    requires PassMeets(images, outcomes, p) && FailsAt(images, outcomes, j)
    ensures StopIndex(p, |images|) <= j
  {
  }

  /** The position-by-position description leaves no freedom: at most one
      pass meets it. */
  lemma PassMeetsUnique(images: seq<Image>, outcomes: seq<Outcome>, p: Pass, q: Pass)
    requires |outcomes| == |images|
    requires PassMeets(images, outcomes, p) && PassMeets(images, outcomes, q)
    ensures p == q
  {
    var n := |images|;
    var sp, sq := StopIndex(p, n), StopIndex(q, n);
    if sp < n {
      StopNoLaterThanFailure(images, outcomes, q, sp);
    }
    if sq < n {
      StopNoLaterThanFailure(images, outcomes, p, sq);
    }
    assert sp == sq;
    assert p.abortedAt == q.abortedAt;
    assert p.images == q.images;
  }

  /** Failures in a joined batch are the failures of its two parts. */
  lemma FailsAtAppend(a: seq<Image>, oa: seq<Outcome>, b: seq<Image>, ob: seq<Outcome>)
    requires |oa| == |a| && |ob| == |b|
    ensures forall j :: 0 <= j < |a| ==> FailsAt(a + b, oa + ob, j) == FailsAt(a, oa, j)
    ensures forall j :: |a| <= j < |a| + |b| ==> FailsAt(a + b, oa + ob, j) == FailsAt(b, ob, j - |a|)
  {
  }

  /** When the pass over `a` aborts, `b` is left as it was. */
  lemma SequencedMeetsAborted(a: seq<Image>, oa: seq<Outcome>, b: seq<Image>, ob: seq<Outcome>)
    requires |oa| == |a| && |ob| == |b|
    requires GenerationPass(a, oa).abortedAt.Some?
    ensures PassMeets(a + b, oa + ob, Pass(GenerationPass(a, oa).images + b, GenerationPass(a, oa).abortedAt))
  {
    var ab, oab := a + b, oa + ob;
    var pa := GenerationPass(a, oa);
    var e := Pass(pa.images + b, pa.abortedAt);
    var k := pa.abortedAt.value;
    FailsAtAppend(a, oa, b, ob);
    assert StopIndex(e, |ab|) == k;
    assert FailsAt(ab, oab, k);
    assert forall j :: 0 <= j < k ==> !FailsAt(ab, oab, j);
    forall j | 0 <= j < |ab|
      ensures e.images[j] == if j < k then ApplyOutcome(ab[j], oab[j]) else ab[j]
    {
      if j < |a| {
        assert e.images[j] == pa.images[j] && ab[j] == a[j] && oab[j] == oa[j];
      } else {
        assert e.images[j] == b[j - |a|] == ab[j];
      }
    }
  }

  /** The result of the pass over `a + b` when the pass over `a` completed. */
  function Continued(pa: Pass, n: nat, pb: Pass): Pass {
    Pass(pa.images + pb.images,
         match pb.abortedAt
         case None => None
         case Some(k) => Some(n + k))
  }

  /** When the pass over `a` completes, the pass over `b` follows it. */
  lemma ContinuedMeets(a: seq<Image>, oa: seq<Outcome>, b: seq<Image>, ob: seq<Outcome>, pa: Pass, pb: Pass)
    requires |oa| == |a| && |ob| == |b|
    requires PassMeets(a, oa, pa) && pa.abortedAt.None?
    requires PassMeets(b, ob, pb)
    ensures PassMeets(a + b, oa + ob, Continued(pa, |a|, pb))
  {
    var e := Continued(pa, |a|, pb);
    var stop := |a| + StopIndex(pb, |b|);
    assert StopIndex(e, |a| + |b|) == stop;
    ContinuedFailures(a, oa, b, ob, pa, pb);
    ContinuedImages(a, oa, b, ob, pa, pb, e, stop);
  }

  lemma ContinuedFailures(a: seq<Image>, oa: seq<Outcome>, b: seq<Image>, ob: seq<Outcome>, pa: Pass, pb: Pass)
    requires |oa| == |a| && |ob| == |b|
    requires PassMeets(a, oa, pa) && pa.abortedAt.None?
    requires PassMeets(b, ob, pb)
    ensures forall j :: 0 <= j < |a| + StopIndex(pb, |b|) ==> !FailsAt(a + b, oa + ob, j)
    ensures pb.abortedAt.Some? ==> FailsAt(a + b, oa + ob, |a| + pb.abortedAt.value)
  {
    FailsAtAppend(a, oa, b, ob);
  }

  lemma ContinuedImages(a: seq<Image>, oa: seq<Outcome>, b: seq<Image>, ob: seq<Outcome>,
                        pa: Pass, pb: Pass, e: Pass, stop: nat)
    requires |oa| == |a| && |ob| == |b|
    requires PassMeets(a, oa, pa) && pa.abortedAt.None?
    requires PassMeets(b, ob, pb)
    requires e.images == pa.images + pb.images
    requires stop == |a| + StopIndex(pb, |b|)
    ensures forall j :: 0 <= j < |a| + |b| ==>
              e.images[j] == if j < stop then ApplyOutcome((a + b)[j], (oa + ob)[j]) else (a + b)[j]
  {
    forall j | 0 <= j < |a| + |b|
      ensures e.images[j] == if j < stop then ApplyOutcome((a + b)[j], (oa + ob)[j]) else (a + b)[j]
    {
      if j < |a| {
        assert e.images[j] == pa.images[j];
      } else {
        assert e.images[j] == pb.images[j - |a|];
      }
    }
  }

  /** The outcome of running a first part, then (unless it aborted) the pass
      over `b`, with abort positions counted from the start of the first
      part of length `n`. */
  function Sequenced(pa: Pass, n: nat, b: seq<Image>, ob: seq<Outcome>): Pass
    requires |ob| == |b|
  {
    if pa.abortedAt.Some? then Pass(pa.images + b, pa.abortedAt)
    else Continued(pa, n, GenerationPass(b, ob))
  }

  /** The pass over a batch split in two is the pass over the first part
      followed, unless that part aborted, by the pass over the second part:
      records are processed strictly in order. */
  lemma GenerationPassAppend(a: seq<Image>, oa: seq<Outcome>, b: seq<Image>, ob: seq<Outcome>)
    requires |oa| == |a| && |ob| == |b|
    ensures GenerationPass(a + b, oa + ob) == Sequenced(GenerationPass(a, oa), |a|, b, ob)
  {
    if GenerationPass(a, oa).abortedAt.Some? {
      SequencedMeetsAborted(a, oa, b, ob);
    } else {
      ContinuedMeets(a, oa, b, ob, GenerationPass(a, oa), GenerationPass(b, ob));
    }
    PassMeetsUnique(a + b, oa + ob, GenerationPass(a + b, oa + ob), Sequenced(GenerationPass(a, oa), |a|, b, ob));
  }

  /** The click handler: without an API key the settings dialog opens and
      nothing changes; otherwise the pass runs over all records and the
      selection is kept. */
  function Generate(apiKey: string, s: Registry, outcomes: seq<Outcome>): (r: Run)
    requires |outcomes| == |s.images|
    ensures apiKey == "" ==> r == Run(s, NeedsApiKey)
    ensures apiKey != "" ==> !r.status.NeedsApiKey?
    ensures apiKey != "" ==>
              PassMeets(s.images, outcomes,
                        Pass(r.registry.images, if r.status.Aborted? then Some(r.status.at) else None))
    ensures apiKey != "" ==> r.registry.selected == s.selected
    ensures apiKey != "" ==> SameIds(s.images, r.registry.images)
    ensures apiKey != "" ==>
              (r.status.Completed? <==> forall j :: 0 <= j < |s.images| ==> !FailsAt(s.images, outcomes, j))
    ensures r.status.Aborted? ==>
              && FailsAt(s.images, outcomes, r.status.at)
              && forall j :: 0 <= j < r.status.at ==> !FailsAt(s.images, outcomes, j)
    ensures forall j :: 0 <= j < |s.images| && s.images[j].title != "" ==>
              r.registry.images[j] == s.images[j]
  {
    if apiKey == "" then Run(s, NeedsApiKey)
    else
      var p := GenerationPass(s.images, outcomes);
      Run(Registry(p.images, s.selected),
          match p.abortedAt
          case None => Completed
          case Some(k) => Aborted(k))
  }

  /** A run keeps the registry invariant: ids and selection are untouched. */
  lemma GenerateKeepsValid(apiKey: string, s: Registry, outcomes: seq<Outcome>)
    requires |outcomes| == |s.images|
    requires Valid(s)
    ensures Valid(Generate(apiKey, s, outcomes).registry)
  {
    var r := Generate(apiKey, s, outcomes).registry;
    assert SameIds(s.images, r.images);
    FindIndexSameIds(s.images, r.images, s.selected.GetOr(""));
  }

  /** The status a run leaves on a record's card: a Ready record stays Ready,
      and a Pending record reached before any failure whose call succeeds
      becomes Ready exactly when the generated title is non-empty. */
  lemma GenerateStatus(apiKey: string, s: Registry, outcomes: seq<Outcome>, k: nat)
    requires |outcomes| == |s.images| && k < |s.images|
    ensures var r := Generate(apiKey, s, outcomes).registry;
            StatusOf(s.images[k]) == Ready ==> StatusOf(r.images[k]) == Ready
    ensures var r := Generate(apiKey, s, outcomes).registry;
            && apiKey != ""
            && StatusOf(s.images[k]) == Pending && outcomes[k].Success?
            && (forall j :: 0 <= j <= k ==> !FailsAt(s.images, outcomes, j))
            ==> (StatusOf(r.images[k]) == Ready <==> outcomes[k].title != "")
  {
    var run := Generate(apiKey, s, outcomes);
    if apiKey != "" && forall j :: 0 <= j <= k ==> !FailsAt(s.images, outcomes, j) {
      var p := Pass(run.registry.images, if run.status.Aborted? then Some(run.status.at) else None);
      assert k < StopIndex(p, |s.images|) by {
        if p.abortedAt.Some? {
          assert FailsAt(s.images, outcomes, p.abortedAt.value);
        }
      }
      assert run.registry.images[k] == ApplyOutcome(s.images[k], outcomes[k]);
    }
  }

  /** Two pending records, the first call succeeds and the second fails: the
      first record gets the generated metadata, the second keeps its empty
      metadata, and the run reports the abort at the second record. */
  lemma FirstSuccessKeptOnLaterFailure(a: Image, b: Image, title: string, desc: string, kws: seq<string>)
    requires a.title == "" && b.title == ""
    ensures var s := Registry([a, b], Some(a.id));
            var r := Generate("key", s, [Success(title, desc, kws), Failure]);
            && r.registry.images == [a.(title := title, description := desc, keywords := kws), b]
            && r.status == Aborted(1)
  {
    var s := Registry([a, b], Some(a.id));
    var outcomes := [Success(title, desc, kws), Failure];
    assert !FailsAt(s.images, outcomes, 0) && FailsAt(s.images, outcomes, 1);
  }

  /** The pass stores the generator's keywords as they come, so a record can
      end up listing a keyword twice, which the keyword editor never allows. */
  lemma GenerationMayRepeatKeywords()
    ensures var s := Registry([NewImage("1", File("a.jpg", "image/jpeg"))], Some("1"));
            var r := Generate("key", s, [Success("t", "d", ["x", "x"])]);
            && Valid(s) && KeywordsUnique(s)
            && !KeywordsUnique(r.registry)
  {
    var s := Registry([NewImage("1", File("a.jpg", "image/jpeg"))], Some("1"));
    var outcomes := [Success("t", "d", ["x", "x"])];
    assert !FailsAt(s.images, outcomes, 0);
    var p := GenerationPass(s.images, outcomes);
    assert p.abortedAt.None?;
    assert p.images[0] == ApplyOutcome(s.images[0], outcomes[0]);
    var r := Generate("key", s, outcomes);
    assert r.registry.images[0].keywords == ["x", "x"];
    var kws := r.registry.images[0].keywords;
    assert kws[0] == kws[1];
    assert !NoDuplicates(kws);
    assert FindIndex(s.images, "1") == Some(0);
  }
}
