/** `copy_file`: the nested read and write loops, under every schedule of short transfers and interruptions. */
module CopyFile {
  import opened Bytes

  /** What the operating system answers to one call: bytes transferred, or an error. */
  datatype Answer = Transferred(n: nat) | Interrupted | Error

  /**
   * The two files and the answers still to come. A read gives between one byte and the requested
   * number while any are left, and zero at the end of the file; a write may accept fewer bytes than
   * offered, even none.
   */
  class Files {
    const source: seq<byte>
    var position: nat
    var target: seq<byte>
    var answers: seq<Answer>
    /** Some call has failed for good. */
    ghost var broken: bool

    constructor (source: seq<byte>, answers: seq<Answer>)
      ensures this.source == source && position == 0 && target == [] && this.answers == answers && !broken
    {
      this.source, this.answers := source, answers;
      position, target, broken := 0, [], false;
    }

    /** The next answer; a schedule that has run out answers with an error. */
    method Next() returns (a: Answer)
      modifies this`answers
      ensures old(answers) == [] ==> a == Error && answers == []
      ensures old(answers) != [] ==> a == old(answers)[0] && answers == old(answers)[1..]
    {
      if answers == [] {
        return Error;
      }
      a := answers[0];
      answers := answers[1..];
    }

    /** `read` of at most `size` bytes: the data, or failure. */
    method Read(size: nat) returns (ok: bool, data: seq<byte>)
      requires position <= |source| && size > 0
      modifies this`answers, this`position, this`broken
      ensures position <= |source| && |answers| <= |old(answers)|
      ensures !ok ==> position == old(position) && data == [] && broken
      ensures ok ==> broken == old(broken)
      ensures ok ==> |data| <= size && position == old(position) + |data| && data == source[old(position)..position]
      ensures ok && data == [] ==> position == |source|
    {
      var a := Next();
      if !a.Transferred? {
        broken := true;
        return false, [];
      }
      var left := |source| - position;
      var most := if left < size then left else size;
      var n := if most == 0 then 0 else if a.n == 0 then 1 else if a.n < most then a.n else most;
      data := source[position..position + n];
      position := position + n;
      ok := true;
    }

    /** `write` of the bytes: how many were accepted, or an error number. */
    method Write(data: seq<byte>) returns (a: Answer)
      modifies this`answers, this`target, this`broken
      ensures a.Transferred? ==> a.n <= |data| && target == old(target) + data[..a.n]
      ensures !a.Transferred? ==> target == old(target)
      ensures broken == (old(broken) || a == Error)
      ensures old(answers) != [] ==> |answers| < |old(answers)|
      ensures old(answers) == [] ==> a == Error && answers == []
    {
      a := Next();
      if a.Transferred? {
        a := Transferred(if a.n < |data| then a.n else |data|);
        target := target + data[..a.n];
      }
      if a == Error {
        broken := true;
      }
    }
  }

  const BUFFER_SIZE: nat := 4096

  /**
   * The copying part of `copy_file`, once both files are open. Success means that the target is the
   * whole source in order; in any case the target is a prefix of what was read.
   */
  method Copy(files: Files) returns (ok: bool)
    requires files.position == 0 && files.target == [] && !files.broken
    modifies files
    ensures ok ==> files.target == files.source
    ensures ok <==> !files.broken
    ensures files.target <= files.source
  {
    var more, data := files.Read(BUFFER_SIZE);
    while more && data != []
      invariant files.position <= |files.source| && |data| <= files.position
      invariant files.target == files.source[..files.position - |data|]
      invariant more ==> data == files.source[files.position - |data|..files.position]
      invariant !more ==> data == []
      invariant more == !files.broken
      invariant more && data == [] ==> files.position == |files.source|
      decreases |files.source| - files.position, |data|
    {
      ghost var start := files.position - |data|;
      ok := WriteAll(files, data);
      if !ok {
        return;
      }
      assert files.source[..start] + data == files.source[..files.position];
      more, data := files.Read(BUFFER_SIZE);
    }
    ok := more;
  }

  /** The inner loop: retries on interruption, advances past what was accepted, stops on any other error. */
  method WriteAll(files: Files, data: seq<byte>) returns (ok: bool)
    requires data != []
    modifies files`answers, files`target, files`broken
    ensures ok ==> files.target == old(files.target) + data
    ensures files.broken == (old(files.broken) || !ok)
    ensures exists n :: 0 <= n <= |data| && files.target == old(files.target) + data[..n]
  {
    var out := 0;
    assert data[..0] == [];
    while true
      invariant 0 <= out < |data|
      invariant files.target == old(files.target) + data[..out] && files.broken == old(files.broken)
      decreases |files.answers|, 1
    {
      var empty := files.answers == [];
      var a := files.Write(data[out..]);
      if a.Transferred? {
        assert data[..out] + data[out..][..a.n] == data[..out + a.n];
        out := out + a.n;
        if out == |data| {
          assert data[..out] == data;
          return true;
        }
      } else if a != Interrupted {
        return false;
      }
    }
  }

  /** `copy_file`: the source must open, the target must not exist yet, and closing it must succeed. */
  method CopyFile(files: Files, opens: bool, creates: bool, closes: bool) returns (status: int)
    requires files.position == 0 && files.target == [] && !files.broken
    modifies files
    ensures status == 0 || status == -1
    ensures status == 0 <==> opens && creates && closes && !files.broken
    ensures status == 0 ==> files.target == files.source
    ensures files.target <= files.source
  {
    if !opens {
      return -1;
    }
    if !creates {
      return -1;
    }
    var ok := Copy(files);
    if ok {
      if !closes {
        return -1;
      }
      return 0;
    }
    return -1;
  }
}
