/** The matrix route: one article per selected platform, each written with
    that platform's persona, gathered into a map from platform key to text. */
module MatrixRoute {
  import opened Common

  /** What a platform's entry holds when its call fails. */
  const FailureText := "生成失败，请重试。"

  /** `PLATFORM_PROMPTS`: the four platform keys the route knows, each with its
      persona. */
  const PlatformPrompts: map<string, Prompt> :=
    map["xhs" := PlatformPersona("xhs"), "douyin" := PlatformPersona("douyin"),
        "wechat" := PlatformPersona("wechat"), "linkedin" := PlatformPersona("linkedin")]

  /** One element of `resultsArray` that is not null. */
  datatype PlatformResult = PlatformResult(platform: string, content: string)

  /** The JSON the route answers with. */
  datatype MatrixResponse = Results(results: map<string, string>) | ErrorResponse(status: nat, error: ErrorText)

  /** The request sent for a known platform key. */
  function PlatformRequest(key: string, topic: string): Request
    requires key in PlatformPrompts
  {
    Request(PlatformPrompts[key], "主题：" + topic)
  }

  /** What a platform's entry holds for a reply: the answer, or the failure
      text when the call threw. */
  function ContentOf(reply: Reply): (content: string)
    ensures reply.Failed? ==> content == FailureText
  {
    match reply
    case Completed(text) => text
    case Failed(_) => FailureText
  }

  /** The task of one platform key: null for a key without a persona,
      otherwise the key with the content of its call. */
  function PlatformTask(key: string, topic: string, backend: Backend): (r: Option<PlatformResult>)
    ensures r.None? <==> key !in PlatformPrompts
    ensures r.Some? ==> r.value.platform == key
  {
    if key !in PlatformPrompts then None
    else Some(PlatformResult(key, ContentOf(backend(PlatformRequest(key, topic)))))
  }

  /** `await Promise.all(platforms.map(task))`: the results in input order. */
  function Tasks(platforms: seq<string>, topic: string, backend: Backend): (r: seq<Option<PlatformResult>>)
    ensures |r| == |platforms|
    ensures forall i :: 0 <= i < |r| ==> r[i] == PlatformTask(platforms[i], topic, backend)
  {
    seq(|platforms|, i requires 0 <= i < |platforms| => PlatformTask(platforms[i], topic, backend))
  }

  /** The requests the tasks send, in input order: one per known key. */
  function PlatformRequests(platforms: seq<string>, topic: string): seq<Request>
  {
    if platforms == [] then []
    else
      (if platforms[0] in PlatformPrompts then [PlatformRequest(platforms[0], topic)] else [])
      + PlatformRequests(platforms[1..], topic)
  }

  /** The map the route fills from the task results, as a function of the
      items seen so far: a null item is skipped, and a later item for a key
      overwrites an earlier one. */
  function Fold(items: seq<Option<PlatformResult>>): map<string, string>
    decreases |items|
  {
    if items == [] then map[]
    else
      var m := Fold(items[..|items| - 1]);
      var last := items[|items| - 1];
      if last.Some? then m[last.value.platform := last.value.content] else m
  }

  /** Some item names platform k. */
  predicate Names(items: seq<Option<PlatformResult>>, k: string)
  {
    exists i :: 0 <= i < |items| && items[i].Some? && items[i].value.platform == k
  }

  /** Item i is the last one naming platform k, and it carries content c. */
  predicate LastNaming(items: seq<Option<PlatformResult>>, k: string, c: string, i: int)
  {
    && 0 <= i < |items| && items[i] == Some(PlatformResult(k, c))
    && forall j :: i < j < |items| ==> !(items[j].Some? && items[j].value.platform == k)
  }

  /** The fold has a key for exactly the platforms the items name. */
  lemma {:induction false} FoldKeys(items: seq<Option<PlatformResult>>, k: string)
    ensures k in Fold(items) <==> Names(items, k)
    decreases |items|
  {
    if items != [] {
      var n := |items| - 1;
      var front := items[..n];
      FoldKeys(front, k);
      if Names(front, k) {
        var i :| 0 <= i < |front| && front[i].Some? && front[i].value.platform == k;
        assert items[i] == front[i];
      }
      if Names(items, k) && !(items[n].Some? && items[n].value.platform == k) {
        var i :| 0 <= i < |items| && items[i].Some? && items[i].value.platform == k;
        assert front[i] == items[i];
      }
    }
  }

  /** Each key of the fold holds the content of the last item naming it. */
  lemma {:induction false} FoldLast(items: seq<Option<PlatformResult>>, k: string)
    requires k in Fold(items)
    ensures exists i :: LastNaming(items, k, Fold(items)[k], i)
    decreases |items|
  {
    var n := |items| - 1;
    var last := items[n];
    if last.Some? && last.value.platform == k {
      assert LastNaming(items, k, Fold(items)[k], n);
    } else {
      var front := items[..n];
      FoldLast(front, k);
      var i :| LastNaming(front, k, Fold(front)[k], i);
      assert items[i] == front[i];
      assert LastNaming(items, k, Fold(items)[k], i);
    }
  }

  /** The loop that fills `resultsMap`. */
  method CollectResults(items: seq<Option<PlatformResult>>) returns (resultsMap: map<string, string>)
    ensures resultsMap == Fold(items)
  {
    resultsMap := map[];
    for i := 0 to |items|
      invariant resultsMap == Fold(items[..i])
    {
      assert items[..i + 1][..i] == items[..i];
      if items[i].Some? {
        resultsMap := resultsMap[items[i].value.platform := items[i].value.content];
      }
    }
    assert items[..|items|] == items;
  }

  /** The map the route answers with: a key for exactly the known platforms of
      the input, duplicates collapsed, each holding the content of that
      platform's own call, so that a failure gives the failure text for that
      key alone. */
  lemma ResultsSpec(platforms: seq<string>, topic: string, backend: Backend, k: string)
    ensures var results := Fold(Tasks(platforms, topic, backend));
      && (k in results <==> k in platforms && k in PlatformPrompts)
      && (k in results ==> k in PlatformPrompts && results[k] == ContentOf(backend(PlatformRequest(k, topic))))
  {
    var items := Tasks(platforms, topic, backend);
    var results := Fold(items);
    FoldKeys(items, k);
    if Names(items, k) {
      var i :| 0 <= i < |items| && items[i].Some? && items[i].value.platform == k;
      assert platforms[i] == k;
      FoldLast(items, k);
      var j :| LastNaming(items, k, results[k], j);
      assert items[j] == PlatformTask(platforms[j], topic, backend);
    }
    if k in platforms && k in PlatformPrompts {
      var i :| 0 <= i < |platforms| && platforms[i] == k;
      assert items[i].Some? && items[i].value.platform == k;
    }
  }

  /** One platform's entry depends only on the reply to that platform's own
      request: whatever happens to the other calls, it is the same. */
  lemma PlatformIsolated(platforms: seq<string>, topic: string, b1: Backend, b2: Backend, k: string)
    requires k in platforms && k in PlatformPrompts
    requires b1(PlatformRequest(k, topic)) == b2(PlatformRequest(k, topic))
    ensures var r1, r2 := Fold(Tasks(platforms, topic, b1)), Fold(Tasks(platforms, topic, b2));
      k in r1 && k in r2 && r1[k] == r2[k]
  {
    ResultsSpec(platforms, topic, b1, k);
    ResultsSpec(platforms, topic, b2, k);
  }

  /** Two platforms selected: the map has exactly those two keys, and a
      platform whose call fails holds the failure text while the other holds
      its own answer. */
  lemma TwoPlatforms(topic: string, backend: Backend)
    ensures var results := Fold(Tasks(["xhs", "douyin"], topic, backend));
      && results.Keys == {"xhs", "douyin"}
      && results["xhs"] == ContentOf(backend(PlatformRequest("xhs", topic)))
      && results["douyin"] == ContentOf(backend(PlatformRequest("douyin", topic)))
  {
    var platforms := ["xhs", "douyin"];
    var results := Fold(Tasks(platforms, topic, backend));
    forall k ensures k in results <==> k in {"xhs", "douyin"} {
      ResultsSpec(platforms, topic, backend, k);
    }
    ResultsSpec(platforms, topic, backend, "xhs");
    ResultsSpec(platforms, topic, backend, "douyin");
  }

  /** `POST /api/matrix`. Without a key the route answers 500 and without a
      non-empty list of platforms 400, before any request; a value that is
      not an array makes `map` throw, a 500. Otherwise one request goes out
      per known key and the answer is the folded map. */
  method Post(keyConfigured: bool, topic: string, platforms: Field<seq<string>>, backend: Backend)
    returns (resp: MatrixResponse, requests: seq<Request>)
    ensures !keyConfigured ==> resp == ErrorResponse(500, Text("Key 未配置")) && requests == []
    ensures keyConfigured && (platforms.Absent? || platforms == Present([])) ==>
              resp == ErrorResponse(400, Text("请至少选择一个平台")) && requests == []
    ensures keyConfigured && platforms.Malformed? ==> resp == ErrorResponse(500, RuntimeMessage) && requests == []
    ensures keyConfigured && platforms.Present? && platforms.value != [] ==>
              && requests == PlatformRequests(platforms.value, topic)
              && resp == Results(Fold(Tasks(platforms.value, topic, backend)))
  {
    if !keyConfigured {
      return ErrorResponse(500, Text("Key 未配置")), [];
    }
    match platforms
    case Absent =>
      return ErrorResponse(400, Text("请至少选择一个平台")), [];
    case Malformed =>
      return ErrorResponse(500, RuntimeMessage), [];
    case Present(keys) =>
      if keys == [] {
        return ErrorResponse(400, Text("请至少选择一个平台")), [];
      }
      var resultsArray := Tasks(keys, topic, backend);
      requests := PlatformRequests(keys, topic);
      var resultsMap := CollectResults(resultsArray);
      resp := Results(resultsMap);
  }
}
