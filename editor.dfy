/** The rewrite button of the editor: the document's ops are scanned for
    paragraphs worth rewriting, those are sent to the rewrite route, and the
    answers are written back into the same ops array. */
module Editor {
  import opened Common
  import opened Strings
  import opened RewriteRoute

  /** What an op inserts: text, or an embedded object such as an image. */
  datatype Insert = InsertText(text: string) | InsertEmbed(embed: string)

  /** One op of the document: what it inserts and its formatting. */
  datatype Op = Op(insert: Insert, attributes: map<string, string>)

  /** An op worth rewriting: a string insert that is more than five characters
      long once trimmed. */
  predicate Qualifies(op: Op)
  {
    op.insert.InsertText? && |Trim(op.insert.text)| > 5
  }

  /** The blocks the `ops.forEach` loop pushes, for the ops seen so far. */
  function TextBlocks(ops: seq<Op>): seq<Block>
    decreases |ops|
  {
    if ops == [] then []
    else
      var n := |ops| - 1;
      TextBlocks(ops[..n]) + (if Qualifies(ops[n]) then [Block(n, ops[n].insert.text)] else [])
  }

  /** `handleRewrite`'s `forEach` over `delta.ops`, which collects the text
      blocks. */
  method ExtractTextBlocks(ops: array<Op>) returns (textBlocks: seq<Block>)
    ensures textBlocks == TextBlocks(ops[..])
  {
    textBlocks := [];
    for index := 0 to ops.Length
      invariant textBlocks == TextBlocks(ops[..index])
    {
      assert ops[..index + 1][..index] == ops[..index];
      if ops[index].insert.InsertText? && |Trim(ops[index].insert.text)| > 5 {
        textBlocks := textBlocks + [Block(index, ops[index].insert.text)];
      }
    }
    assert ops[..ops.Length] == ops[..];
  }

  /** Some block records op i. */
  predicate Records(blocks: seq<Block>, i: int)
  {
    exists j :: 0 <= j < |blocks| && blocks[j].index == i
  }

  /** Every block records a qualifying op, by its position and its untrimmed
      text, and the blocks come in ascending op order. */
  lemma {:induction false} TextBlocksSound(ops: seq<Op>)
    ensures forall j :: 0 <= j < |TextBlocks(ops)| ==>
              var b := TextBlocks(ops)[j];
              0 <= b.index < |ops| && Qualifies(ops[b.index]) && b.content == ops[b.index].insert.text
    ensures forall j, k :: 0 <= j < k < |TextBlocks(ops)| ==> TextBlocks(ops)[j].index < TextBlocks(ops)[k].index
    decreases |ops|
  {
    if ops != [] {
      var n := |ops| - 1;
      TextBlocksSound(ops[..n]);
      assert forall i :: 0 <= i < n ==> ops[..n][i] == ops[i];
    }
  }

  /** Every qualifying op is recorded; no other op is. */
  lemma {:induction false} TextBlocksComplete(ops: seq<Op>, i: int)
    requires 0 <= i < |ops|
    ensures Records(TextBlocks(ops), i) <==> Qualifies(ops[i])
    decreases |ops|
  {
    var n := |ops| - 1;
    var front := TextBlocks(ops[..n]);
    var blocks := TextBlocks(ops);
    TextBlocksSound(ops);
    if i < n {
      TextBlocksComplete(ops[..n], i);
      assert ops[..n][i] == ops[i];
      if Records(front, i) {
        var j :| 0 <= j < |front| && front[j].index == i;
        assert blocks[j] == front[j];
      }
    } else if Qualifies(ops[n]) {
      assert blocks[|front|].index == n;
    }
  }

  /** An op with its insert replaced by text and its formatting kept, as
      `ops[item.index].insert = item.newContent` leaves it. */
  function SetText(op: Op, text: string): (r: Op)
    ensures r.insert == InsertText(text) && r.attributes == op.attributes
  {
    op.(insert := InsertText(text))
  }

  /** Every item names a position of an array of length n. */
  predicate InRange(items: seq<Rewritten>, n: int)
  {
    forall k :: 0 <= k < |items| ==> 0 <= items[k].index < n
  }

  /** The ops after `newTexts.forEach`, applied to the ops in order. An index
      outside the array makes the assignment throw: the items before it have
      been written, the rest are not. */
  function Reassembled(s: seq<Op>, items: seq<Rewritten>): seq<Op>
    decreases |items|
  {
    if items == [] then s
    else if 0 <= items[0].index < |s| then
      Reassembled(s[items[0].index := SetText(s[items[0].index], items[0].newContent)], items[1..])
    else s
  }

  /** `handleRewrite`'s `forEach` over `newTexts`, writing into `ops` in
      place. `ok` is false when an index made the loop throw. */
  method Reassemble(ops: array<Op>, newTexts: seq<Rewritten>) returns (ok: bool)
    modifies ops
    ensures ok <==> InRange(newTexts, ops.Length)
    ensures ops[..] == Reassembled(old(ops[..]), newTexts)
  {
    for i := 0 to |newTexts|
      invariant InRange(newTexts[..i], ops.Length)
      invariant Reassembled(ops[..], newTexts[i..]) == Reassembled(old(ops[..]), newTexts)
    {
      var item := newTexts[i];
      if !(0 <= item.index < ops.Length) {
        assert newTexts[i..][0] == item;
        return false;
      }
      assert newTexts[i..][1..] == newTexts[i + 1..];
      ops[item.index] := SetText(ops[item.index], item.newContent);
      assert newTexts[..i + 1] == newTexts[..i] + [item];
    }
    assert newTexts[..|newTexts|] == newTexts;
    ok := true;
  }

  /** Some item names position i. */
  predicate Names(items: seq<Rewritten>, i: int)
  {
    exists k :: 0 <= k < |items| && items[k].index == i
  }

  /** Reassembly keeps the number of ops and every op's formatting, and an op
      no item names is left as it was. */
  lemma {:induction false} ReassembledFrame(s: seq<Op>, items: seq<Rewritten>)
    ensures |Reassembled(s, items)| == |s|
    ensures forall i :: 0 <= i < |s| ==> Reassembled(s, items)[i].attributes == s[i].attributes
    ensures forall i :: 0 <= i < |s| && !Names(items, i) ==> Reassembled(s, items)[i] == s[i]
    decreases |items|
  {
    if items != [] && 0 <= items[0].index < |s| {
      var s' := s[items[0].index := SetText(s[items[0].index], items[0].newContent)];
      ReassembledFrame(s', items[1..]);
    }
  }

  /** No two items name the same position. */
  predicate DistinctIndices(items: seq<Rewritten>)
  {
    forall j, k :: 0 <= j < k < |items| ==> items[j].index != items[k].index
  }

  /** With distinct positions, all in range, each named op gets its own item's
      text. */
  lemma {:induction false} ReassembledNamed(s: seq<Op>, items: seq<Rewritten>, k: int)
    requires InRange(items, |s|) && DistinctIndices(items) && 0 <= k < |items|
    ensures |Reassembled(s, items)| == |s|
    ensures Reassembled(s, items)[items[k].index] == SetText(s[items[k].index], items[k].newContent)
    decreases |items|
  {
    var i0 := items[0].index;
    var s' := s[i0 := SetText(s[i0], items[0].newContent)];
    var rest := items[1..];
    ReassembledFrame(s', rest);
    if k != 0 {
      assert rest[k - 1] == items[k];
      ReassembledNamed(s', rest, k - 1);
    }
  }

  /** The alert the handler ends with. */
  datatype Alert = PasteFirst | RewriteFailed | RewriteDone

  /** `handleRewrite` from reading the ops on. `call` is the request to the
      rewrite route: the `data` it answers with, or None when the request
      throws. `sent` lists the block lists the handler posts. */
  method HandleRewrite(ops: array?<Op>, call: seq<Block> -> Option<seq<Rewritten>>)
    returns (alert: Alert, sent: seq<seq<Block>>)
    modifies ops
    ensures ops == null || ops.Length == 0 ==> alert == PasteFirst && sent == []
    ensures ops != null && ops.Length > 0 && TextBlocks(old(ops[..])) == [] ==>
              alert == RewriteFailed && sent == [] && ops[..] == old(ops[..])
    ensures ops != null && ops.Length > 0 && TextBlocks(old(ops[..])) != [] ==>
              var blocks := TextBlocks(old(ops[..]));
              && sent == [blocks]
              && (call(blocks).None? ==> alert == RewriteFailed && ops[..] == old(ops[..]))
              && (call(blocks).Some? ==>
                    && ops[..] == Reassembled(old(ops[..]), call(blocks).value)
                    && (alert == RewriteDone <==> InRange(call(blocks).value, ops.Length))
                    && alert != PasteFirst)
  {
    if ops == null || ops.Length == 0 {
      return PasteFirst, [];
    }
    var textBlocks := ExtractTextBlocks(ops);
    if textBlocks == [] {
      return RewriteFailed, [];
    }
    sent := [textBlocks];
    match call(textBlocks)
    case None =>
      alert := RewriteFailed;
    case Some(newTexts) =>
      var ok := Reassemble(ops, newTexts);
      alert := if ok then RewriteDone else RewriteFailed;
  }

  /** What reassembling the route's answer leaves at position i. */
  function RewrittenOp(s: seq<Op>, i: int, backend: Backend): Op
    requires 0 <= i < |s|
  {
    if Qualifies(s[i]) then SetText(s[i], RewriteBlock(Block(i, s[i].insert.text), backend).newContent)
    else s[i]
  }

  /** One position of the round trip. */
  lemma RoundTripAt(s: seq<Op>, backend: Backend, i: int)
    requires 0 <= i < |s|
    ensures var data := RewriteAll(TextBlocks(s), backend);
      && |Reassembled(s, data)| == |s|
      && (InRange(data, |s|) ==> Reassembled(s, data)[i] == RewrittenOp(s, i, backend))
  {
    var blocks := TextBlocks(s);
    var data := RewriteAll(blocks, backend);
    ReassembledFrame(s, data);
    if InRange(data, |s|) {
      TextBlocksSound(s);
      TextBlocksComplete(s, i);
      if Qualifies(s[i]) {
        var j :| 0 <= j < |blocks| && blocks[j].index == i;
        ReassembledNamed(s, data, j);
      } else {
        assert !Names(data, i);
      }
    }
  }

  /** The editor and the rewrite route together: every index the route hands
      back is in range, so the rewrite completes; each qualifying op gets the
      text of its own block's task, every other op is kept. */
  lemma RewriteRoundTrip(s: seq<Op>, backend: Backend)
    ensures var data := RewriteAll(TextBlocks(s), backend);
      && InRange(data, |s|)
      && |Reassembled(s, data)| == |s|
      && forall i :: 0 <= i < |s| ==> Reassembled(s, data)[i] == RewrittenOp(s, i, backend)
  {
    var data := RewriteAll(TextBlocks(s), backend);
    TextBlocksSound(s);
    ReassembledFrame(s, data);
    forall i | 0 <= i < |s|
      ensures Reassembled(s, data)[i] == RewrittenOp(s, i, backend)
    {
      RoundTripAt(s, backend, i);
    }
  }

  /** When every call fails the document comes back exactly as it was. */
  lemma RewriteFailSafe(s: seq<Op>, backend: Backend)
    requires forall j :: 0 <= j < |TextBlocks(s)| ==> backend(BlockRequest(TextBlocks(s)[j])).Failed?
    ensures Reassembled(s, RewriteAll(TextBlocks(s), backend)) == s
  {
    var blocks := TextBlocks(s);
    var r := Reassembled(s, RewriteAll(blocks, backend));
    RewriteRoundTrip(s, backend);
    forall i | 0 <= i < |s| ensures r[i] == s[i] {
      assert r[i] == RewrittenOp(s, i, backend);
      if Qualifies(s[i]) {
        TextBlocksComplete(s, i);
        TextBlocksSound(s);
        var j :| 0 <= j < |blocks| && blocks[j].index == i;
        assert blocks[j] == Block(i, s[i].insert.text);
      }
    }
  }
}
