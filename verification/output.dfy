/** The output file as the routines see it: a sequence of `Write` calls, each
    of which either appends its bytes or fails with an error, in which case the
    routine returns that error at once and issues no further write. */
module Output {
  import opened Results

  /** The fate of the successive `Write` calls a routine issues: call `k`
      fails with `fates[k]` when that is `Some`; calls past the end succeed.
      A failed call is taken to append nothing. */
  datatype Sink = Sink(fates: seq<Option<Error>>)
  {
    predicate FailsAt(k: nat)
    {
      k < |fates| && fates[k].Some?
    }
  }

  /** What a routine leaves behind: the bytes it appended and the error it
      returned (`None` for a nil error). */
  datatype Written = Written(bytes: string, err: Option<Error>)

  /** The bytes of the segments, one after the other. */
  function Concat(segments: seq<string>): string
  {
    if |segments| == 0 then [] else Concat(segments[..|segments| - 1]) + segments[|segments| - 1]
  }

  lemma {:induction false} ConcatAppend(a: seq<string>, b: seq<string>)
    ensures Concat(a + b) == Concat(a) + Concat(b)
    decreases |b|
  {
    if |b| == 0 {
      assert a + b == a;
    } else {
      var init := b[..|b| - 1];
      calc {
        Concat(a + b);
      == { assert (a + b)[..|a + b| - 1] == a + init; }
        Concat(a + init) + b[|b| - 1];
      == { ConcatAppend(a, init); }
        Concat(a) + Concat(init) + b[|b| - 1];
      }
    }
  }

  lemma ConcatPrefixes4(a: string, b: string, c: string, d: string)
    ensures var segments := [a, b, c, d];
            && Concat(segments[..0]) == []
            && Concat(segments[..1]) == a
            && Concat(segments[..2]) == a + b
            && Concat(segments[..3]) == a + b + c
            && Concat(segments) == a + b + c + d
  {
    var segments := [a, b, c, d];
    assert segments[..1][..0] == segments[..0];
    assert segments[..2][..1] == segments[..1];
    assert segments[..3][..2] == segments[..2];
    assert segments[..3] == segments[..|segments| - 1];
  }

  lemma ConcatPrefixes3(a: string, b: string, c: string)
    ensures var segments := [a, b, c];
            && Concat(segments[..0]) == []
            && Concat(segments[..1]) == a
            && Concat(segments[..2]) == a + b
            && Concat(segments) == a + b + c
  {
    var segments := [a, b, c];
    assert segments[..1][..0] == segments[..0];
    assert segments[..2][..1] == segments[..1];
    assert segments[..2] == segments[..|segments| - 1];
  }

  /** The number of leading writes among the first `n` that succeed: the
      index of the first failing one, or `n` when none of them fails. */
  function FirstFailure(sink: Sink, n: nat): (k: nat)
    ensures k <= n
    ensures forall j :: 0 <= j < k ==> !sink.FailsAt(j)
    ensures k < n ==> sink.FailsAt(k)
  {
    if n == 0 then 0
    else
      var k := FirstFailure(sink, n - 1);
      if k < n - 1 then k
      else if sink.FailsAt(n - 1) then n - 1
      else n
  }

  /** Issue one `Write` per segment, in order, stopping at the first that
      fails. */
  function Emit(segments: seq<string>, sink: Sink): (w: Written)
    ensures w.err == None <==> forall j :: 0 <= j < |segments| ==> !sink.FailsAt(j)
    ensures w.err == None ==> w.bytes == Concat(segments)
    ensures w.err != None ==>
              var k := FirstFailure(sink, |segments|);
              k < |segments| && w.err == sink.fates[k] && w.bytes == Concat(segments[..k])
  {
    var k := FirstFailure(sink, |segments|);
    assert segments[..|segments|] == segments;
    Written(Concat(segments[..k]), if k < |segments| then sink.fates[k] else None)
  }

  /** Whatever happens, the bytes written are the leading whole segments. */
  lemma EmitIsPrefix(segments: seq<string>, sink: Sink)
    ensures exists k :: 0 <= k <= |segments| && Emit(segments, sink).bytes == Concat(segments[..k])
    ensures Emit(segments, sink).bytes <= Concat(segments)
  {
    var k := FirstFailure(sink, |segments|);
    assert segments == segments[..k] + segments[k..];
    ConcatAppend(segments[..k], segments[k..]);
    assert segments[..|segments|] == segments;
  }

  /** Four writes in a row: the first failure ends the run with its error
      and the segments before it; with no failure all four are written. */
  lemma Emit4(a: string, b: string, c: string, d: string, sink: Sink)
    ensures var w := Emit([a, b, c, d], sink);
      && (w.err == None <==> !sink.FailsAt(0) && !sink.FailsAt(1) && !sink.FailsAt(2) && !sink.FailsAt(3))
      && (sink.FailsAt(0) ==> w == Written([], sink.fates[0]))
      && (!sink.FailsAt(0) && sink.FailsAt(1) ==> w == Written(a, sink.fates[1]))
      && (!sink.FailsAt(0) && !sink.FailsAt(1) && sink.FailsAt(2) ==> w == Written(a + b, sink.fates[2]))
      && (!sink.FailsAt(0) && !sink.FailsAt(1) && !sink.FailsAt(2) && sink.FailsAt(3) ==>
            w == Written(a + b + c, sink.fates[3]))
      && (w.err == None ==> w.bytes == a + b + c + d)
  {
    ConcatPrefixes4(a, b, c, d);
    var k := FirstFailure(sink, 4);
    if sink.FailsAt(0) {
      assert k == 0;
    } else if sink.FailsAt(1) {
      assert k == 1;
    } else if sink.FailsAt(2) {
      assert k == 2;
    } else if sink.FailsAt(3) {
      assert k == 3;
    }
  }
}
