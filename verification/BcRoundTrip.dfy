/** A dump through the writer's buffer and callback, and back through the reader. */
module RoundTrip {
  import opened Uleb
  import opened Values
  import opened Dump
  import opened Undump
  import opened Writer
  import opened Reader

  /** string.dump followed by load. The callback takes all blocks, or its answer is the result. */
  method DumpAndLoad(dual: bool, strip: bool, wfunc: nat -> int, p: Proto, name: seq<byte>, chunkarg: seq<byte>)
    returns (st: int, r: Outcome<(Proto, seq<byte>)>)
    requires ProtoOk(dual, strip, p) && |name| <= LJ_MAX_MEM
    ensures st == 0 ==> r == Done((Plain(strip, p), if strip then chunkarg else name))
  {
    hide ProtoOk, DumpBytes, ReadDump, Plain;
    var ctx := new BCWriteCtx(dual, strip, wfunc);
    st := ctx.WriteDump(p, name);
    r := Failed(BadDump);
    if st == 0 {
      DumpBack(dual, strip, p, name, chunkarg);
      DumpStarts(dual, strip, p, name);
      var ls := new LexState(dual, ctx.out[1..]);
      r := ls.Read(chunkarg);
    }
  }

  lemma DumpStarts(dual: bool, strip: bool, p: Proto, name: seq<byte>)
    requires ProtoOk(dual, strip, p)
    ensures DumpBytes(dual, strip, p, name) != []
  {}
}
