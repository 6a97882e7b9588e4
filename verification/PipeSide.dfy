/** The buffer of one side of a pipe, and the loops that pipe_read and pipe_write run over it while
    they hold the lock. */
module PipeSide {
  import opened Common
  import opened PipeMachine

  class Side {
    var pipeq: seq<seq<Byte>>
    var dataready: int

    ghost predicate Valid()
      reads this
    {
      dataready == |Flatten(pipeq)| <= MAX && forall i :: 0 <= i < |pipeq| ==> |pipeq[i]| > 0
    }

    constructor ()
      ensures Valid() && pipeq == []
    {
      pipeq, dataready := [], 0;
    }

    /** The copy loop of pipe_read: the first len bytes of the pipe, or all it has. */
    method CopyOut(len: nat) returns (out: seq<Byte>)
      requires Valid()
      modifies this
      ensures Valid()
      ensures |out| == Least(len, |Flatten(old(pipeq))|) && out + Flatten(pipeq) == Flatten(old(pipeq))
    {
      out := [];
      var left := len;
      while pipeq != [] && left > 0
        invariant Valid() && out + Flatten(pipeq) == Flatten(old(pipeq)) && left == len - |out|
        decreases left
      {
        ghost var q, o := pipeq, out;
        var count := Least(left, |pipeq[0]|);
        out, left := out + pipeq[0][..count], left - count;
        pipeq := if count == |pipeq[0]| then pipeq[1..] else [pipeq[0][count..]] + pipeq[1..];
        dataready := dataready - count;
        FlattenTake(q, count, pipeq);
        assert o + (q[0][..count] + Flatten(pipeq)) == out + Flatten(pipeq);
      }
      assert pipeq == [] ==> Flatten(pipeq) == [];
    }

    /** The loop of pipe_write as long as there is room: as many bytes as fit go to the end. */
    method StuffIn(data: seq<Byte>) returns (rest: seq<Byte>)
      requires Valid()
      modifies this
      ensures Valid()
      ensures |rest| == |data| - Least(|data|, MAX - |Flatten(old(pipeq))|)
      ensures Flatten(pipeq) + rest == Flatten(old(pipeq)) + data
    {
      rest := data;
      while rest != [] && dataready < MAX
        invariant Valid() && Flatten(pipeq) + rest == Flatten(old(pipeq)) + data && |rest| <= |data|
        decreases |rest|
      {
        var count := if MAX - dataready > |rest| then |rest| else MAX - dataready;
        FlattenSnoc(pipeq, rest[..count]);
        assert Flatten(pipeq) + rest == Flatten(pipeq) + rest[..count] + rest[count..];
        pipeq, dataready, rest := pipeq + [rest[..count]], dataready + count, rest[count..];
      }
      assert |Flatten(pipeq)| + |rest| == |Flatten(old(pipeq))| + |data|;
    }
  }
}
