/**
 * The pure parts of the model client: pulling the JSON text out of a reply
 * that may wrap it in a Markdown code fence, turning a decode failure into an
 * error, and the deterministic embedding of the test double.
 */
module Gemini {
  import opened Wrappers
  import opened Text
  import opened JsonValue
  import VectorStore

  const JsonFence: string := "```json"
  const Fence: string := "```"

  /** The fence that opens a JSON block begins with the bare fence. */
  lemma JsonFenceStartsWithFence()
    ensures |JsonFence| == 7 && |Fence| == 3 && JsonFence[..3] == Fence
  {
  }

  lemma JsonFenceHasFence(text: string)
    requires Contains(text, JsonFence)
    ensures Contains(text, Fence)
  {
    var i: nat :| OccursAt(text, JsonFence, i);
    OpenBeginsWithFence(text, JsonFence, i);
  }

  /**
   * The text `generate_json` hands to the decoder: after the first "```json"
   * if there is one, otherwise after the first bare fence, cut at the next
   * fence by splitting, then whitespace-stripped; the whole reply, stripped,
   * when it has no fence.
   */
  function FenceCandidate(text: string): (c: string)
    ensures !Contains(text, Fence) ==> c == Strip(text)
    ensures Contains(text, Fence) ==> !Contains(c, Fence)
    ensures Contains(text, JsonFence) ==>
      var start := IndexOf(text, JsonFence).value + |JsonFence|;
      exists e :: start <= e <= |text| && c == Strip(text[start..e])
        && !Contains(text[start..e], Fence) && (e == |text| || OccursAt(text, Fence, e))
    ensures Contains(text, Fence) && !Contains(text, JsonFence) ==>
      var start := IndexOf(text, Fence).value + |Fence|;
      exists e :: start <= e <= |text| && c == Strip(text[start..e])
        && !Contains(text[start..e], Fence) && (e == |text| || OccursAt(text, Fence, e))
  {
    if Contains(text, JsonFence) then
      JsonFenceHasFence(text);
      var inner := Split(Split(text, JsonFence)[1], Fence)[0];
      Between(text, JsonFence);
      StripKeepsAbsence(inner, Fence);
      Strip(inner)
    else if Contains(text, Fence) then
      var inner := Split(Split(text, Fence)[1], Fence)[0];
      Between(text, Fence);
      StripKeepsAbsence(inner, Fence);
      Strip(inner)
    else
      Strip(text)
  }

  /**
   * The piece `text.split(open)[1].split("```")[0]` is a slice of the text that
   * starts right after the first `open` and ends at the end of the text or
   * where a fence begins.
   */
  lemma Between(text: string, open: string)
    requires open == JsonFence || open == Fence
    requires Contains(text, open)
    ensures var start := IndexOf(text, open).value + |open|;
      var inner := Split(Split(text, open)[1], Fence)[0];
      exists e :: start <= e <= |text| && inner == text[start..e]
        && (e == |text| || OccursAt(text, Fence, e))
  {
    JsonFenceStartsWithFence();
    var start := IndexOf(text, open).value + |open|;
    var e := PieceEnd(text, open, start);
  }

  lemma PieceEnd(text: string, open: string, start: nat) returns (e: nat)
    requires |open| >= 3 && open[..3] == Fence
    requires Contains(text, open) && start == IndexOf(text, open).value + |open|
    ensures start <= e <= |text| && Split(Split(text, open)[1], Fence)[0] == text[start..e]
    ensures e == |text| || OccursAt(text, Fence, e)
  {
    var end1 := SecondPiece(text, open, start);
    var p1 := Split(text, open)[1];
    var m2 := HeadPiece(p1, Fence);
    e := CutPiece(text, start, end1, p1, m2);
  }

  /** A prefix of a slice ending at the end or at a fence is a slice ending at the end or at a fence. */
  lemma CutPiece(text: string, start: nat, end1: nat, p1: string, m2: nat) returns (e: nat)
    requires start <= end1 <= |text| && p1 == text[start..end1]
    requires end1 == |text| || OccursAt(text, Fence, end1)
    requires m2 <= |p1| && (m2 < |p1| ==> OccursAt(p1, Fence, m2))
    ensures e == start + m2 && start <= e <= |text| && p1[..m2] == text[start..e]
    ensures e == |text| || OccursAt(text, Fence, e)
  {
    SliceOfSlice(text, start, end1, 0, m2);
    OccursInSlice(text, Fence, start, end1, m2);
    e := start + m2;
  }

  /** The second piece of a split on `open` runs to the end or to the next `open`, which begins with a fence. */
  lemma SecondPiece(text: string, open: string, start: nat) returns (end1: nat)
    requires |open| >= 3 && open[..3] == "```"
    requires Contains(text, open) && start == IndexOf(text, open).value + |open|
    ensures start <= end1 <= |text| && Split(text, open)[1] == text[start..end1]
    ensures end1 == |text| || OccursAt(text, "```", end1)
  {
    SplitSecond(text, open);
    var rest := text[start..];
    var m := HeadPiece(rest, open);
    end1 := CutSuffix(text, open, start, rest, m);
  }

  /** A prefix of a suffix ending at the end or at `open` is a slice ending at the end or at a fence. */
  lemma CutSuffix(text: string, open: string, start: nat, rest: string, m: nat) returns (end1: nat)
    requires |open| >= 3 && open[..3] == "```"
    requires start <= |text| && rest == text[start..]
    requires m <= |rest| && (m < |rest| ==> OccursAt(rest, open, m))
    ensures end1 == start + m && end1 <= |text| && rest[..m] == text[start..end1]
    ensures end1 == |text| || OccursAt(text, "```", end1)
  {
    if m < |rest| {
      OpenBeginsWithFence(rest, open, m);
      OccursInSuffix(text, start, Fence, m);
    }
    end1 := start + m;
  }

  /** The first piece of a split is a prefix ending at the end or at a separator. */
  lemma HeadPiece(s: string, sep: string) returns (m: nat)
    requires |sep| > 0
    ensures m <= |s| && Split(s, sep)[0] == s[..m]
    ensures m < |s| ==> OccursAt(s, sep, m)
  {
    SplitHead(s, sep);
    m := if IndexOf(s, sep).Some? then IndexOf(s, sep).value else |s|;
  }

  lemma OpenBeginsWithFence(s: string, open: string, m: nat)
    requires |open| >= 3 && open[..3] == "```"
    requires OccursAt(s, open, m)
    ensures OccursAt(s, "```", m)
  {
    assert s[m..m + 3] == s[m..m + |open|][..3];
  }

  lemma OccursInSuffix(text: string, start: nat, pat: string, m: nat)
    requires start <= |text| && OccursAt(text[start..], pat, m)
    ensures OccursAt(text, pat, start + m)
  {
    assert text[start + m..start + m + |pat|] == text[start..][m..m + |pat|];
  }

  /** A string with no backtick in it. */
  predicate NoBacktick(s: string)
  {
    forall i :: 0 <= i < |s| ==> s[i] != '`'
  }

  /**
   * Fencing is undone: a body without backticks, wrapped in a "```json" block,
   * is handed to the decoder as the body, stripped.
   */
  lemma FencedBodyIsRecovered(body: string)
    requires NoBacktick(body)
    ensures FenceCandidate(JsonFence + body + Fence) == Strip(body)
  {
    JsonFenceStartsWithFence();
    var text := JsonFence + body + Fence;
    assert text[..7] == JsonFence && text[7..|text| - 3] == body && text[|text| - 3..] == Fence;
    CandidateOfFencedText(text, body);
  }

  lemma CandidateOfFencedText(text: string, body: string)
    requires NoBacktick(body) && |text| == |body| + 10
    requires text[..7] == JsonFence && text[7..|text| - 3] == body && text[|text| - 3..] == Fence
    ensures FenceCandidate(text) == Strip(body)
  {
    JsonFenceAtStart(text);
    JsonFenceStartsWithFence();
    var e := PieceEnd(text, JsonFence, 7);
    var inner := Split(Split(text, JsonFence)[1], Fence)[0];
    assert FenceCandidate(text) == Strip(inner);
    assert !Contains(text[7..e], Fence);
    OnlyClosingFence(text, body, e);
  }

  lemma JsonFenceAtStart(text: string)
    requires |text| >= 7 && text[..7] == JsonFence
    ensures IndexOf(text, JsonFence) == Some(0)
  {
    JsonFenceStartsWithFence();
    assert OccursAt(text, JsonFence, 0);
  }

  /** In a fenced body without backticks, the only fence after the opener is the closing one. */
  lemma OnlyClosingFence(text: string, body: string, e: int)
    requires NoBacktick(body) && |text| == |body| + 10
    requires text[..7] == JsonFence && text[7..|text| - 3] == body && text[|text| - 3..] == Fence
    requires 7 <= e <= |text| && !Contains(text[7..e], Fence)
    requires e == |text| || OccursAt(text, Fence, e)
    ensures e == |text| - 3 && text[7..e] == body
  {
    ClosingFenceInside(text);
    assert e != |text|;
    NoBacktickInBody(text, body);
    assert text[e..e + 3] == Fence;
    assert text[e] == '`';
  }

  /** The closing fence lies inside the text after the opener. */
  lemma ClosingFenceInside(text: string)
    requires |text| >= 10 && text[|text| - 3..] == Fence
    ensures Contains(text[7..|text|], Fence)
  {
    assert text[7..|text|][|text| - 10..] == text[|text| - 3..];
    assert OccursAt(text[7..|text|], Fence, |text| - 10);
  }

  lemma NoBacktickInBody(text: string, body: string)
    requires NoBacktick(body) && |text| == |body| + 10 && text[7..|text| - 3] == body
    ensures forall p :: 7 <= p < |text| - 3 ==> text[p] != '`'
  {
    forall p | 7 <= p < |text| - 3 ensures text[p] != '`' {
      assert text[p] == body[p - 7];
    }
  }

  datatype ReplyError = InvalidJson  // surfaced as `ValueError`

  /**
   * `generate_json` over a reply and an abstract decoder standing in for
   * `json.loads`: the decoded value, or an error when decoding fails.
   */
  function GenerateJson(reply: string, decode: string -> Option<Json>): (r: Result<Json, ReplyError>)
    ensures r.Success? <==> decode(FenceCandidate(reply)).Some?
    ensures r.Success? ==> r.value == decode(FenceCandidate(reply)).value
    ensures r.Failure? ==> r.error == InvalidJson
  {
    match decode(FenceCandidate(reply))
    case Some(j) => Success(j)
    case None => Failure(InvalidJson)
  }

  /** A reply without fences is decoded as the stripped reply; surrounding whitespace never matters. */
  lemma UnfencedReplyIsStripped(reply: string, decode: string -> Option<Json>)
    requires !Contains(reply, Fence)
    ensures GenerateJson(reply, decode).Success? <==> decode(Strip(reply)).Some?
  {
  }

  /* ---------- the test double's embeddings ---------- */

  /** Length of the embeddings the test double makes up. */
  const MockDimension: nat := 768

  function Pow2(n: nat): (p: nat)
    ensures p >= 1
  {
    if n == 0 then 1 else 2 * Pow2(n - 1)
  }

  /**
   * `MockGeminiClient.generate_embedding`: a registered embedding is returned
   * as it was set; otherwise entry `i` is `(h >> i) % 100 / 100` for the text's
   * hash `h` (the md5 digest, taken here as a parameter).
   */
  function MockEmbedding(registered: map<string, seq<real>>, text: string, hash: nat): (v: seq<real>)
    ensures text in registered ==> v == registered[text]
    ensures text !in registered ==> |v| == MockDimension
    ensures text !in registered ==> forall i :: 0 <= i < |v| ==> 0.0 <= v[i] <= 0.99
    ensures text !in registered ==> forall i :: 0 <= i < |v| ==> v[i] == ((hash / Pow2(i)) % 100) as real / 100.0
  {
    if text in registered then registered[text]
    else seq(MockDimension, i requires 0 <= i < MockDimension => ((hash / Pow2(i)) % 100) as real / 100.0)
  }

  /** A made-up embedding fits the default vector store: adding it to an empty store succeeds with id 0. */
  lemma MockEmbeddingFitsStore(registered: map<string, seq<real>>, text: string, hash: nat, objectId: string, objectType: string)
    requires text !in registered
    ensures var s := VectorStore.EmptyStore(VectorStore.DefaultDimension);
      VectorStore.AddVector(s, MockEmbedding(registered, text, hash), objectId, objectType).result == Success(0)
  {
  }

  /** A text searched for with its own made-up embedding is its own nearest neighbour. */
  lemma MockEmbeddingFindsItself(registered: map<string, seq<real>>, text: string, hash: nat, objectId: string, objectType: string, k: int)
    requires text !in registered && k > 0
    ensures var v := MockEmbedding(registered, text, hash);
      var t := VectorStore.AddVector(VectorStore.EmptyStore(VectorStore.DefaultDimension), v, objectId, objectType).store;
      VectorStore.Search(t, v, k, true, None) == Success([VectorStore.Hit(objectId, objectType, 0.0)])
  {
    VectorStore.AddThenSearchFindsIt(VectorStore.DefaultDimension, MockEmbedding(registered, text, hash), objectId, objectType, k);
  }
}
