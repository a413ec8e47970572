/** The two chat-completion requests: `GetCuts`, which asks for cuts, and
    `GenerateMetadata`, which asks for a clip's title, description and tags.
    Each attempt's result is an input, the attempts as a function from the
    attempt number; the sleeps between attempts are returned as values.

    In both requests the variable the response is decoded into is declared
    before the loop, so whatever one attempt's decoding writes into it stays
    there for the attempts after it. A body is therefore given by what its
    decoding writes and by whether the decoding reported an error, which
    JSON decoding can do after it has already written some fields. */
module Requests {
  import opened Text
  import opened Outcomes
  import opened Cuts

  const MaxAttempts: nat := 3
  const StatusOk: int := 200

  /** One attempt: no response at all (the request could not be built or
      sent), a status whose body could not be read, or a status and body. */
  datatype Attempt<B> = NoResponse | BodyUnread(status: int) | Answered(status: int, body: B)

  /** An attempt ends the loop when it was answered with 200 and its body
      passes the request's own test. */
  predicate Accepted<B>(accepts: B -> bool, a: Attempt<B>) {
    a.Answered? && a.status == StatusOk && accepts(a.body)
  }

  /** `2 << (k - 1)` seconds before attempt `k > 0`. */
  function Backoff(k: nat): (s: nat)
    requires k > 0
    ensures s == 2 * Pow2(k - 1)
  {
    if k == 1 then 2 else 2 * Backoff(k - 1)
  }

  function Pow2(k: nat): (p: nat)
    ensures p >= 1
  {
    if k == 0 then 1 else 2 * Pow2(k - 1)
  }

  /** What the loop leaves behind: how many attempts were made, the sleeps
      taken, the last status seen (0 if none), whether a response ended the
      loop, and the decoded variable. */
  datatype Outcome<S> = Outcome(attempts: nat, sleeps: seq<nat>, status: int, accepted: bool, state: S)

  /** Attempts `k ..` of the loop. A body is decoded only under status 200;
      `decode` gives what the variable holds afterwards. */
  function RunFrom<B, S>(accepts: B -> bool, decode: (S, B) -> S, script: nat -> Attempt<B>,
                         k: nat, status: int, sleeps: seq<nat>, state: S): (o: Outcome<S>)
    requires k <= MaxAttempts
    requires |sleeps| == if k == 0 then 0 else k - 1
    ensures k <= o.attempts <= MaxAttempts
    ensures |o.sleeps| == o.attempts - 1 || (o.attempts == 0 && o.sleeps == sleeps)
    ensures o.sleeps[..|sleeps|] == sleeps
    decreases MaxAttempts - k
  {
    if k == MaxAttempts then Outcome(k, sleeps, status, false, state)
    else
      var slept := if k > 0 then sleeps + [Backoff(k)] else sleeps;
      assert slept[..|sleeps|] == sleeps;
      match script(k)
      case NoResponse => RunFrom(accepts, decode, script, k + 1, status, slept, state)
      case BodyUnread(s) => RunFrom(accepts, decode, script, k + 1, s, slept, state)
      case Answered(s, body) =>
        if s != StatusOk then RunFrom(accepts, decode, script, k + 1, s, slept, state)
        else if accepts(body) then Outcome(k + 1, slept, s, true, decode(state, body))
        else RunFrom(accepts, decode, script, k + 1, s, slept, decode(state, body))
  }

  function Run<B, S>(accepts: B -> bool, decode: (S, B) -> S, script: nat -> Attempt<B>, init: S): Outcome<S> {
    RunFrom(accepts, decode, script, 0, 0, [], init)
  }

  // ---------------------------------------------------------------------------
  // Reference definitions

  /** The first attempt from `k` on that ends the loop. */
  function FirstAccepted<B>(accepts: B -> bool, script: nat -> Attempt<B>, k: nat): (r: Option<nat>)
    ensures r.Some? ==> k <= r.value < MaxAttempts && Accepted(accepts, script(r.value))
    ensures r.Some? ==> forall j :: k <= j < r.value ==> !Accepted(accepts, script(j))
    ensures r.None? ==> forall j :: k <= j < MaxAttempts ==> !Accepted(accepts, script(j))
    decreases MaxAttempts - k
  {
    if k >= MaxAttempts then None
    else if Accepted(accepts, script(k)) then Some(k)
    else FirstAccepted(accepts, script, k + 1)
  }

  predicate Reports<B>(a: Attempt<B>) {
    a.BodyUnread? || a.Answered?
  }

  /** The status of the last attempt before `k` that got one, or `status`. */
  function LastStatus<B>(script: nat -> Attempt<B>, k: nat, status: int): int
    decreases k
  {
    if k == 0 then status
    else if Reports(script(k - 1)) then script(k - 1).status
    else LastStatus(script, k - 1, status)
  }

  /** The variable after the first `n` attempts: every body answered with
      200, in attempt order, decoded into it. */
  function StateAfter<B, S>(decode: (S, B) -> S, script: nat -> Attempt<B>, n: nat, init: S): S
    decreases n
  {
    if n == 0 then init
    else
      var prev := StateAfter(decode, script, n - 1, init);
      var a := script(n - 1);
      if a.Answered? && a.status == StatusOk then decode(prev, a.body) else prev
  }

  /** The sleeps before attempts `1 .. n-1`: 2 s, 4 s, ... */
  function Sleeps(n: nat): (s: seq<nat>)
    ensures |s| == if n == 0 then 0 else n - 1
    ensures forall j :: 0 <= j < |s| ==> s[j] == Backoff(j + 1)
  {
    if n <= 1 then [] else Sleeps(n - 1) + [Backoff(n - 1)]
  }

  // ---------------------------------------------------------------------------
  // Properties of the loop

  /** The loop makes attempts up to and including the first accepted one,
      three if none is; it sleeps 2 s and 4 s before the second and third;
      its variable holds every 200 body up to its last attempt decoded in
      turn; and its status is the last status any attempt reported, or 0 if
      none did. */
  lemma {:induction false} RunFromSpec<B, S>(accepts: B -> bool, decode: (S, B) -> S, script: nat -> Attempt<B>,
                                              k: nat, init: S)
    requires k <= MaxAttempts
    ensures var o := RunFrom(accepts, decode, script, k, LastStatus(script, k, 0), Sleeps(k), StateAfter(decode, script, k, init));
      var first := FirstAccepted(accepts, script, k);
      && o.accepted == first.Some?
      && (first.Some? ==> o.attempts == first.value + 1)
      && (first.None? ==> o.attempts == MaxAttempts)
      && o.sleeps == Sleeps(o.attempts)
      && o.status == LastStatus(script, o.attempts, 0)
      && o.state == StateAfter(decode, script, o.attempts, init)
    decreases MaxAttempts - k
  {
    if k < MaxAttempts {
      RunFromStep(accepts, decode, script, k, init);
      if !Accepted(accepts, script(k)) {
        RunFromSpec(accepts, decode, script, k + 1, init);
      }
    }
  }

  /** One attempt of the loop: it ends at an accepted response and otherwise
      goes on with the status it saw, the variable as decoded so far, and one
      sleep more. */
  lemma RunFromStep<B, S>(accepts: B -> bool, decode: (S, B) -> S, script: nat -> Attempt<B>, k: nat, init: S)
    requires k < MaxAttempts
    ensures var o := RunFrom(accepts, decode, script, k, LastStatus(script, k, 0), Sleeps(k), StateAfter(decode, script, k, init));
      if Accepted(accepts, script(k))
      then o == Outcome(k + 1, Sleeps(k + 1), LastStatus(script, k + 1, 0), true, StateAfter(decode, script, k + 1, init))
      else o == RunFrom(accepts, decode, script, k + 1, LastStatus(script, k + 1, 0), Sleeps(k + 1), StateAfter(decode, script, k + 1, init))
  {
    var slept := if k > 0 then Sleeps(k) + [Backoff(k)] else Sleeps(k);
    assert slept == Sleeps(k + 1);
  }

  lemma RunSpec<B, S>(accepts: B -> bool, decode: (S, B) -> S, script: nat -> Attempt<B>, init: S)
    ensures var o := Run(accepts, decode, script, init);
      var first := FirstAccepted(accepts, script, 0);
      && 1 <= o.attempts <= MaxAttempts
      && o.accepted == first.Some?
      && (first.Some? ==> o.attempts == first.value + 1)
      && (first.None? ==> o.attempts == MaxAttempts)
      && o.sleeps == [2, 4][..o.attempts - 1]
      && o.status == LastStatus(script, o.attempts, 0)
      && o.state == StateAfter(decode, script, o.attempts, init)
  {
    RunFromSpec(accepts, decode, script, 0, init);
    SleepsOfAttempts();
  }

  /** The sleeps of one, two and three attempts. */
  lemma SleepsOfAttempts()
    ensures forall n: nat :: 1 <= n <= MaxAttempts ==> Sleeps(n) == [2, 4][..n - 1]
  {
    assert Backoff(1) == 2 && Backoff(2) == 4;
    assert Sleeps(1) == [] && Sleeps(2) == [2] && Sleeps(3) == [2, 4];
  }

  /** Once the loop has accepted a response, the status it reports is 200. */
  lemma AcceptedMeansOk<B, S>(accepts: B -> bool, decode: (S, B) -> S, script: nat -> Attempt<B>, init: S)
    ensures Run(accepts, decode, script, init).accepted ==> Run(accepts, decode, script, init).status == StatusOk
  {
    RunSpec(accepts, decode, script, init);
  }

  // ---------------------------------------------------------------------------
  // GetCuts

  /** The choices of a response, each one's content decoded as cuts where
      it decodes. */
  type Choices = seq<Option<seq<Cut>>>

  /** A 200 body of the cut request: the choices list its decoding writes
      into the response variable (`None` when it writes none, as for a
      syntax error or a body without `choices`), and whether the decoding
      reported success. */
  datatype CutsBody = CutsBody(choices: Option<Choices>, ok: bool)

  /** The cut request stops at the first 200 body that decodes. */
  predicate CutsAccept(b: CutsBody) {
    b.ok
  }

  /** Decoding a body replaces the choices when it writes them. */
  function CutsDecode(choices: Choices, b: CutsBody): Choices {
    if b.choices.Some? then b.choices.value else choices
  }

  /** The cuts of the first choice, none without one or when its content
      does not decode. */
  function FirstCuts(choices: Choices): seq<Cut> {
    if |choices| == 0 || choices[0].None? then [] else choices[0].value
  }

  /** `GetCuts`, once the caption file was read, and an unreadable caption
      file gives no cuts: after the loop, nothing unless the last status is
      200, and then the cuts of the first choice left in the response
      variable. */
  function GetCuts(captionsReadable: bool, script: nat -> Attempt<CutsBody>): seq<Cut> {
    if !captionsReadable then []
    else
      var o := Run(CutsAccept, CutsDecode, script, []);
      if o.status != StatusOk then [] else FirstCuts(o.state)
  }

  /** The cuts come from the first choice of the last choices list any 200
      body wrote, up to the first body that decodes, or up to the third
      attempt when none does, and then only if the last status is 200. When
      the body that ends the loop writes its own choices, those are the
      ones used; when no attempt gets a 200 body, there are no cuts. */
  lemma GetCutsFromFirstParsedResponse(script: nat -> Attempt<CutsBody>)
    ensures var first := FirstAccepted(CutsAccept, script, 0);
      var n := if first.Some? then first.value + 1 else MaxAttempts;
      && (first.Some? ==> GetCuts(true, script) == FirstCuts(StateAfter(CutsDecode, script, n, [])))
      && (first.None? ==>
            GetCuts(true, script) == (if LastStatus(script, n, 0) == StatusOk then FirstCuts(StateAfter(CutsDecode, script, n, [])) else []))
      && (first.Some? && script(first.value).body.choices.Some? ==>
            GetCuts(true, script) == FirstCuts(script(first.value).body.choices.value))
      && ((forall k :: 0 <= k < MaxAttempts ==> !(script(k).Answered? && script(k).status == StatusOk)) ==>
            GetCuts(true, script) == [])
  {
    RunSpec(CutsAccept, CutsDecode, script, []);
    AcceptedMeansOk(CutsAccept, CutsDecode, script, []);
    var first := FirstAccepted(CutsAccept, script, 0);
    if first.Some? {
      assert StateAfter(CutsDecode, script, first.value + 1, []) ==
        CutsDecode(StateAfter(CutsDecode, script, first.value, []), script(first.value).body);
    }
    if forall k :: 0 <= k < MaxAttempts ==> !(script(k).Answered? && script(k).status == StatusOk) {
      NothingAnswered(script, MaxAttempts);
    }
  }

  /** Without a 200 body, no choices are ever written. */
  lemma {:induction false} NothingAnswered(script: nat -> Attempt<CutsBody>, n: nat)
    requires forall k :: 0 <= k < n ==> !(script(k).Answered? && script(k).status == StatusOk)
    ensures StateAfter(CutsDecode, script, n, []) == []
  {
    if n > 0 {
      NothingAnswered(script, n - 1);
    }
  }

  /** A response that fails, then an error status, then a good response:
      three attempts, 2 s and 4 s of sleep, and the third response's cuts. */
  lemma RecoversOnThirdAttempt(cuts: seq<Cut>, body: CutsBody)
    ensures var script: nat -> Attempt<CutsBody> :=
        k => if k == 0 then NoResponse else if k == 1 then Answered(500, body) else Answered(200, CutsBody(Some([Some(cuts)]), true));
      var o := Run(CutsAccept, CutsDecode, script, []);
      && o.attempts == 3 && o.sleeps == [2, 4] && o.status == 200
      && GetCuts(true, script) == cuts
  {
    var script: nat -> Attempt<CutsBody> :=
      k => if k == 0 then NoResponse else if k == 1 then Answered(500, body) else Answered(200, CutsBody(Some([Some(cuts)]), true));
    RunSpec(CutsAccept, CutsDecode, script, []);
    assert FirstAccepted(CutsAccept, script, 0) == Some(2);
    assert LastStatus(script, 3, 0) == 200;
    assert StateAfter(CutsDecode, script, 2, []) == [];
  }

  /** A decoding that fails part-way still leaves its choices behind: a
      first 200 body whose choices were written before a type error, then
      two attempts without a response, gives the cuts of that body. */
  lemma LeftoverChoicesUsed(cuts: seq<Cut>)
    ensures var script: nat -> Attempt<CutsBody> :=
        k => if k == 0 then Answered(200, CutsBody(Some([Some(cuts), None]), false)) else NoResponse;
      GetCuts(true, script) == cuts
  {
    var script: nat -> Attempt<CutsBody> :=
      k => if k == 0 then Answered(200, CutsBody(Some([Some(cuts), None]), false)) else NoResponse;
    RunSpec(CutsAccept, CutsDecode, script, []);
    assert FirstAccepted(CutsAccept, script, 0) == None;
    assert LastStatus(script, 3, 0) == 200;
    assert StateAfter(CutsDecode, script, 3, []) == [Some(cuts), None];
  }

  // ---------------------------------------------------------------------------
  // GenerateMetadata

  datatype Metadata = Metadata(title: string, description: string, tags: seq<string>, hashtags: seq<string>)

  /** The metadata before any decoding: every field empty. */
  const NoMetadata := Metadata("", "", [], [])

  /** What decoding a reply's content writes into the metadata: the fields
      it sets, `None` for those it leaves as they were. */
  datatype MetadataPatch = MetadataPatch(title: Option<string>, description: Option<string>,
                                         tags: Option<seq<string>>, hashtags: Option<seq<string>>)

  function Patch(m: Metadata, p: MetadataPatch): Metadata {
    Metadata(if p.title.Some? then p.title.value else m.title,
             if p.description.Some? then p.description.value else m.description,
             if p.tags.Some? then p.tags.value else m.tags,
             if p.hashtags.Some? then p.hashtags.value else m.hashtags)
  }

  /** A patch that sets every field. */
  predicate Complete(p: MetadataPatch) {
    p.title.Some? && p.description.Some? && p.tags.Some? && p.hashtags.Some?
  }

  /** A complete patch leaves nothing of what was there before, and a patch
      that leaves a field keeps it. */
  lemma PatchFields(m: Metadata, p: MetadataPatch)
    ensures Complete(p) ==> Patch(m, p) == Patch(NoMetadata, p)
    ensures p.title.None? ==> Patch(m, p).title == m.title
    ensures p.description.None? ==> Patch(m, p).description == m.description
    ensures p.tags.None? ==> Patch(m, p).tags == m.tags
    ensures p.hashtags.None? ==> Patch(m, p).hashtags == m.hashtags
  {
  }

  /** A 200 body of the metadata request. Its outer decoding goes into a
      variable of the attempt's own, so only its content touches the
      metadata: the body does not decode, has no choices, or has a first
      choice whose content decoding wrote `patch` and reported success or
      not. */
  datatype MetadataBody = Unparsed | NoChoices | Content(patch: MetadataPatch, ok: bool)

  /** The metadata request stops at the first content that decodes. */
  predicate MetadataAccept(b: MetadataBody) {
    b.Content? && b.ok
  }

  function MetadataDecode(m: Metadata, b: MetadataBody): Metadata {
    if b.Content? then Patch(m, b.patch) else m
  }

  datatype MetadataError = StatusError(status: int) | NothingDecoded

  /** `GenerateMetadata` as written: an error only when the last status is
      not 200; otherwise whatever the metadata variable holds. */
  function GenerateMetadataAsWritten(script: nat -> Attempt<MetadataBody>): (r: Result<Metadata, MetadataError>)
    ensures r.Err? <==> Run(MetadataAccept, MetadataDecode, script, NoMetadata).status != StatusOk
  {
    var o := Run(MetadataAccept, MetadataDecode, script, NoMetadata);
    if o.status != StatusOk then Err(StatusError(o.status)) else Ok(o.state)
  }

  /** A 200 response with no choices, followed by two failed attempts, is
      reported as success with empty metadata. */
  lemma EmptyMetadataReportedAsSuccess()
    ensures var script: nat -> Attempt<MetadataBody> := k => if k == 0 then Answered(200, NoChoices) else NoResponse;
      GenerateMetadataAsWritten(script) == Ok(NoMetadata)
  {
    var script: nat -> Attempt<MetadataBody> := k => if k == 0 then Answered(200, NoChoices) else NoResponse;
    RunSpec(MetadataAccept, MetadataDecode, script, NoMetadata);
    assert FirstAccepted(MetadataAccept, script, 0) == None;
    assert LastStatus(script, 3, 0) == 200;
    assert StateAfter(MetadataDecode, script, 3, NoMetadata) == NoMetadata;
  }

  /** Content whose decoding set the title and then failed on the tags,
      followed by two failed attempts, is reported as success with only
      that title. */
  lemma PartialMetadataReportedAsSuccess()
    ensures var script: nat -> Attempt<MetadataBody> :=
        k => if k == 0 then Answered(200, Content(MetadataPatch(Some("T"), None, None, None), false)) else NoResponse;
      GenerateMetadataAsWritten(script) == Ok(Metadata("T", "", [], []))
  {
    var script: nat -> Attempt<MetadataBody> :=
      k => if k == 0 then Answered(200, Content(MetadataPatch(Some("T"), None, None, None), false)) else NoResponse;
    RunSpec(MetadataAccept, MetadataDecode, script, NoMetadata);
    assert FirstAccepted(MetadataAccept, script, 0) == None;
    assert LastStatus(script, 3, 0) == 200;
    assert StateAfter(MetadataDecode, script, 3, NoMetadata) == Metadata("T", "", [], []);
  }

  /** `GenerateMetadata` reporting success only when some content decoded;
      the metadata it reports is the variable the source returns. */
  function GenerateMetadata(script: nat -> Attempt<MetadataBody>): (r: Result<Metadata, MetadataError>) {
    var o := Run(MetadataAccept, MetadataDecode, script, NoMetadata);
    if o.status != StatusOk then Err(StatusError(o.status))
    else if !o.accepted then Err(NothingDecoded)
    else Ok(o.state)
  }

  /** Success means some attempt's content decoded: the first one is a 200
      answer, and the metadata is every 200 body up to it decoded in turn,
      so a content setting every field gives exactly its own fields. When no
      content decodes, the result is an error. */
  lemma GenerateMetadataDecoded(script: nat -> Attempt<MetadataBody>)
    ensures var r := GenerateMetadata(script);
      var first := FirstAccepted(MetadataAccept, script, 0);
      && (r.Ok? <==> first.Some?)
      && (r.Ok? ==> && script(first.value).Answered?
                    && script(first.value).status == StatusOk
                    && script(first.value).body.Content?
                    && script(first.value).body.ok
                    && r.value == StateAfter(MetadataDecode, script, first.value + 1, NoMetadata))
      && (r.Ok? && Complete(script(first.value).body.patch) ==> r.value == Patch(NoMetadata, script(first.value).body.patch))
  {
    RunSpec(MetadataAccept, MetadataDecode, script, NoMetadata);
    AcceptedMeansOk(MetadataAccept, MetadataDecode, script, NoMetadata);
    var first := FirstAccepted(MetadataAccept, script, 0);
    if first.Some? {
      var p := script(first.value).body.patch;
      PatchFields(StateAfter(MetadataDecode, script, first.value, NoMetadata), p);
    }
  }

  /** Earlier partial decodings show through a later success: a title set
      by a failed decoding stays when the decoding that succeeds sets only
      the description. */
  lemma PartialDecodeCarriesOver()
    ensures var script: nat -> Attempt<MetadataBody> :=
        k => if k == 0 then Answered(200, Content(MetadataPatch(Some("T"), None, None, None), false))
             else Answered(200, Content(MetadataPatch(None, Some("D"), None, None), true));
      GenerateMetadata(script) == Ok(Metadata("T", "D", [], []))
  {
    var script: nat -> Attempt<MetadataBody> :=
      k => if k == 0 then Answered(200, Content(MetadataPatch(Some("T"), None, None, None), false))
           else Answered(200, Content(MetadataPatch(None, Some("D"), None, None), true));
    RunSpec(MetadataAccept, MetadataDecode, script, NoMetadata);
    assert FirstAccepted(MetadataAccept, script, 0) == Some(1);
    assert StateAfter(MetadataDecode, script, 2, NoMetadata) == Metadata("T", "D", [], []);
  }

  /** The two agree whenever some content decodes or the status is an
      error; where nothing decoded under a final 200, the source reports
      success with whatever earlier partial decodings left. */
  lemma GenerateMetadataAgrees(script: nat -> Attempt<MetadataBody>)
    ensures GenerateMetadata(script).Ok? ==> GenerateMetadataAsWritten(script) == GenerateMetadata(script)
    ensures GenerateMetadata(script).Err? && GenerateMetadata(script).error.StatusError? ==>
              GenerateMetadataAsWritten(script) == GenerateMetadata(script)
    ensures GenerateMetadata(script) == Err(NothingDecoded) ==>
              GenerateMetadataAsWritten(script) == Ok(StateAfter(MetadataDecode, script, MaxAttempts, NoMetadata))
  {
    RunSpec(MetadataAccept, MetadataDecode, script, NoMetadata);
  }

  /** The metadata file the source writes for a clip: whenever
      `GenerateMetadata` as written reports no error. */
  function MetadataFile(script: nat -> Attempt<MetadataBody>): Option<Metadata> {
    match GenerateMetadataAsWritten(script)
    case Ok(m) => Some(m)
    case Err(_) => None
  }

  /** The metadata file written only when some content decoded. */
  function MetadataFileCorrected(script: nat -> Attempt<MetadataBody>): Option<Metadata> {
    match GenerateMetadata(script)
    case Ok(m) => Some(m)
    case Err(_) => None
  }

  /** As written, a file is written exactly when the last status is 200, and
      it holds every 200 body of the loop decoded in turn; corrected, exactly
      when some content decoded, and then the two files agree. */
  lemma MetadataFileWritten(script: nat -> Attempt<MetadataBody>)
    ensures var o := Run(MetadataAccept, MetadataDecode, script, NoMetadata);
      && (MetadataFile(script).Some? <==> o.status == StatusOk)
      && (MetadataFile(script).Some? ==> MetadataFile(script).value == StateAfter(MetadataDecode, script, o.attempts, NoMetadata))
      && (MetadataFileCorrected(script).Some? <==> FirstAccepted(MetadataAccept, script, 0).Some?)
      && (MetadataFileCorrected(script).Some? ==> MetadataFile(script) == MetadataFileCorrected(script))
  {
    RunSpec(MetadataAccept, MetadataDecode, script, NoMetadata);
    AcceptedMeansOk(MetadataAccept, MetadataDecode, script, NoMetadata);
  }

  /** A 200 response with no choices, then two failed attempts: the source
      writes a file of empty metadata, the corrected version writes none. */
  lemma EmptyMetadataFileWritten()
    ensures var script: nat -> Attempt<MetadataBody> := k => if k == 0 then Answered(200, NoChoices) else NoResponse;
      && MetadataFile(script) == Some(NoMetadata)
      && MetadataFileCorrected(script) == None
  {
    var script: nat -> Attempt<MetadataBody> := k => if k == 0 then Answered(200, NoChoices) else NoResponse;
    EmptyMetadataReportedAsSuccess();
    MetadataFileWritten(script);
    assert FirstAccepted(MetadataAccept, script, 0) == None;
  }

  // ---------------------------------------------------------------------------
  // The caption file a cut search reads

  /** A name holding `.part` is read as a segment's subtitle, and the whole
      video's caption file is derived from what precedes the first `.part`. */
  function VttPath(subtitle: string): string {
    if Contains(subtitle, ".part") then Split(subtitle, ".part")[0] + ".srt.pt.vtt"
    else subtitle + ".pt.vtt"
  }

  lemma FirstPartMarker(a: string, b: string)
    requires !Contains(a, ".part")
    ensures IndexOf(a + ".part" + b, ".part") == |a|
  {
    var s := a + ".part" + b;
    assert s[|a|..|a| + 5] == ".part";
    assert OccursAt(s, ".part", |a|);
    forall j | 0 <= j < |a| ensures !OccursAt(s, ".part", j) {
      if j + 5 <= |a| {
        assert s[j..j + 5] == a[j..j + 5];
        assert !OccursAt(a, ".part", j);
      } else {
        assert s[|a|] == '.';
        assert s[j..j + 5][|a| - j] == s[|a|];
      }
    }
  }

  /** A name with `.part` in it is read up to its first `.part`. */
  lemma VttPathAtFirstPart(a: string, b: string)
    requires !Contains(a, ".part")
    ensures VttPath(a + ".part" + b) == a + ".srt.pt.vtt"
  {
    var s := a + ".part" + b;
    FirstPartMarker(a, b);
    assert s[..|a|] == a;
  }

  /** Every segment's cut search reads the caption file of the whole video:
      for `<base>.srt` split into `<base>.part<k>.srt`, the path is
      `<base>.srt.pt.vtt`, the path the unsplit video uses. */
  lemma SegmentsReadWholeCaptions(base: string, k: nat)
    requires !Contains(base, ".part")
    ensures VttPath(base + ".part" + Itoa(k + 1) + ".srt") == base + ".srt.pt.vtt"
  {
    var rest := Itoa(k + 1) + ".srt";
    assert base + ".part" + Itoa(k + 1) + ".srt" == base + ".part" + rest;
    VttPathAtFirstPart(base, rest);
  }

  /** A name with `.part` anywhere, such as a folder called `my.party`, is
      also read as a segment's. */
  lemma FolderNamedLikeAPart(rest: string)
    ensures VttPath("my.party/" + rest) == "my.srt.pt.vtt"
  {
    assert "my.party/" + rest == "my" + ".part" + ("y/" + rest);
    assert !Contains("my", ".part");
    VttPathAtFirstPart("my", "y/" + rest);
  }
}
