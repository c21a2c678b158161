/** The rewrite route: every block is sent to the backend with the fixed
    rewriting instruction, and a block whose call fails keeps its text. */
module RewriteRoute {
  import opened Common

  /** The request sent for one block. */
  function BlockRequest(b: Block): Request
  {
    Request(RewriteStyle, b.content)
  }

  /** The task of one block: its index with the backend's answer, or with
      the block's own content when the call fails. */
  function RewriteBlock(b: Block, backend: Backend): (r: Rewritten)
    ensures r.index == b.index
    ensures backend(BlockRequest(b)).Failed? ==> r.newContent == b.content
    ensures backend(BlockRequest(b)).Completed? ==> r.newContent == backend(BlockRequest(b)).text
  {
    match backend(BlockRequest(b))
    case Completed(text) => Rewritten(b.index, text)
    case Failed(_) => Rewritten(b.index, b.content)
  }

  /** `await Promise.all(blocks.map(task))`: one entry per block, in block
      order. */
  function RewriteAll(blocks: seq<Block>, backend: Backend): (r: seq<Rewritten>)
    ensures |r| == |blocks|
    ensures forall i :: 0 <= i < |r| ==> r[i].index == blocks[i].index
    ensures forall i :: 0 <= i < |r| ==> r[i] == RewriteBlock(blocks[i], backend)
  {
    if blocks == [] then []
    else [RewriteBlock(blocks[0], backend)] + RewriteAll(blocks[1..], backend)
  }

  /** When every call fails, the route hands back each block as it came. */
  lemma RewriteAllFallback(blocks: seq<Block>, backend: Backend)
    requires forall i :: 0 <= i < |blocks| ==> backend(BlockRequest(blocks[i])).Failed?
    ensures RewriteAll(blocks, backend) == seq(|blocks|, i requires 0 <= i < |blocks| => Rewritten(blocks[i].index, blocks[i].content))
  {
  }

  /** The JSON the route answers with. */
  datatype RewriteResponse = Data(data: seq<Rewritten>) | ErrorResponse(status: nat, error: ErrorText)

  /** `POST /api/rewrite`. A missing or non-array `blocks` makes `map` throw
      before any call, which the outer handler turns into a 500; the route has
      no key guard. Otherwise one request goes out per block, in block order. */
  method Post(blocks: Field<seq<Block>>, backend: Backend) returns (resp: RewriteResponse, requests: seq<Request>)
    ensures blocks.Present? ==>
              && resp == Data(RewriteAll(blocks.value, backend)) && |resp.data| == |blocks.value|
              && |requests| == |blocks.value|
              && forall i :: 0 <= i < |requests| ==> requests[i] == BlockRequest(blocks.value[i])
    ensures blocks == Present([]) ==> resp == Data([]) && requests == []
    ensures !blocks.Present? ==> resp == ErrorResponse(500, Text("处理失败")) && requests == []
  {
    match blocks
    case Present(bs) =>
      requests := seq(|bs|, i requires 0 <= i < |bs| => BlockRequest(bs[i]));
      resp := Data(RewriteAll(bs, backend));
    case _ =>
      resp, requests := ErrorResponse(500, Text("处理失败")), [];
  }
}
