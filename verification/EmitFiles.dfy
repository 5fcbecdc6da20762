/** Writing generated source files, directly and by capture and replay
    (src/cppEmitter.cpp, rotateSrcFile, __emitSrc and flushEmitBufs). */
module EmitFiles {

  datatype Option = None | Some(text: string)

  /** One call of __emitSrc, its text formatted. */
  datatype Call = Call(indent: nat, canNewFile: bool, alreadyEndFunc: bool, nextFuncDef: Option, text: string)

  /** A captured call: the text with its indentation, and the bytes that count. */
  datatype Chunk = Chunk(text: string, countedBytes: nat, canNewFile: bool, alreadyEndFunc: bool, nextFuncDef: Option)

  /** The finished files, the one being written, and its counted bytes. */
  datatype Files = Files(finished: seq<string>, isOpen: bool, current: string, bytes: nat)

  datatype Config = Config(maxBytes: nat, header: string)

  function Spaces(n: nat): (r: string)
    ensures |r| == n
  {
    seq(n, i => ' ')
  }

  // ----- what the emitter does, as functions of the files

  function Rotate(cfg: Config, f: Files, alreadyEndFunc: bool, nextFuncDef: Option): Files {
    var finished := if f.isOpen then f.finished + [f.current + if alreadyEndFunc then "" else "}"] else f.finished;
    var def := if nextFuncDef.Some? then nextFuncDef.text + " {\n" else "";
    Files(finished, true, cfg.header + def, |cfg.header| + |def|)
  }

  function MaybeRotate(cfg: Config, f: Files, canNewFile: bool, alreadyEndFunc: bool, nextFuncDef: Option): Files {
    if !f.isOpen || (f.bytes > cfg.maxBytes && canNewFile) then Rotate(cfg, f, alreadyEndFunc, nextFuncDef) else f
  }

  /** Writing straight away: the indentation is written but not counted. */
  function Emit(cfg: Config, f: Files, c: Call): Files {
    var g := MaybeRotate(cfg, f, c.canNewFile, c.alreadyEndFunc, c.nextFuncDef);
    g.(current := g.current + Spaces(2 * c.indent) + c.text, bytes := g.bytes + |c.text|)
  }

  function EmitAll(cfg: Config, f: Files, cs: seq<Call>): Files
    decreases |cs|
  {
    if cs == [] then f else EmitAll(cfg, Emit(cfg, f, cs[0]), cs[1..])
  }

  /** Capturing: the count is what remains of the length without the indentation. */
  function Capture(c: Call): Chunk {
    var text := Spaces(2 * c.indent) + c.text;
    Chunk(text, |text| - 2 * c.indent, c.canNewFile, c.alreadyEndFunc, c.nextFuncDef)
  }

  function CaptureAll(cs: seq<Call>): (r: seq<Chunk>)
    ensures |r| == |cs|
  {
    seq(|cs|, i requires 0 <= i < |cs| => Capture(cs[i]))
  }

  lemma {:induction false} EmitConcat(cfg: Config, f: Files, a: seq<Call>, b: seq<Call>)
    ensures EmitAll(cfg, f, a + b) == EmitAll(cfg, EmitAll(cfg, f, a), b)
    decreases |a|
  {
    if a == [] {
      assert a + b == b;
    } else {
      assert (a + b)[1..] == a[1..] + b;
      EmitConcat(cfg, Emit(cfg, f, a[0]), a[1..], b);
    }
  }

  lemma EmitPush(cfg: Config, f: Files, a: seq<Call>, c: Call)
    ensures EmitAll(cfg, f, a + [c]) == Emit(cfg, EmitAll(cfg, f, a), c)
  {
    EmitConcat(cfg, f, a, [c]);
    assert [c][1..] == [];
  }

  /** All units in order, as one stream. */
  function Stream(units: seq<seq<Call>>): seq<Call> {
    if units == [] then [] else Stream(units[..|units| - 1]) + units[|units| - 1]
  }

  // ----- which calls go to which file, without the emitter

  function Rendered(c: Call): string {
    Spaces(2 * c.indent) + c.text
  }

  function RenderRange(cs: seq<Call>, a: nat, b: nat): string
    requires b <= |cs|
  {
    if a >= b then "" else RenderRange(cs, a, b - 1) + Rendered(cs[b - 1])
  }

  /** What a file begins with when the call opens it. */
  function Opening(cfg: Config, c: Call): string {
    cfg.header + if c.nextFuncDef.Some? then c.nextFuncDef.text + " {\n" else ""
  }

  /** What the file before ends with. */
  function Closing(c: Call): string {
    if c.alreadyEndFunc then "" else "}"
  }

  function CountRange(cs: seq<Call>, a: nat, b: nat): nat
    requires b <= |cs|
  {
    if a >= b then 0 else CountRange(cs, a, b - 1) + |cs[b - 1].text|
  }

  /** The file opened by call a is full when call j comes, and j may begin a new one. */
  predicate Full(cfg: Config, cs: seq<Call>, a: nat, j: nat)
    requires a < j < |cs|
  {
    cs[j].canNewFile && |Opening(cfg, cs[a])| + CountRange(cs, a, j) > cfg.maxBytes
  }

  /** The calls [a, b) share a file. */
  ghost predicate OneFile(cfg: Config, cs: seq<Call>, a: nat, b: nat) {
    a < b <= |cs| && forall j: nat :: a < j < b ==> !Full(cfg, cs, a, j)
  }

  /** `starts` holds the calls that open a file: the first call, and each first call that
      finds the file before full. */
  ghost predicate Splits(cfg: Config, cs: seq<Call>, starts: seq<nat>) {
    && |starts| > 0 && starts[0] == 0 && OneFile(cfg, cs, starts[|starts| - 1], |cs|)
    && forall k: nat :: k < |starts| - 1 ==> SplitAt(cfg, cs, starts[k], starts[k + 1])
  }

  ghost predicate SplitAt(cfg: Config, cs: seq<Call>, a: nat, b: nat) {
    OneFile(cfg, cs, a, b) && b < |cs| && Full(cfg, cs, a, b)
  }

  function FileText(cfg: Config, cs: seq<Call>, a: nat, b: nat): string
    requires a < |cs| && b <= |cs|
  {
    Opening(cfg, cs[a]) + RenderRange(cs, a, b)
  }

  ghost predicate FinishedIs(cfg: Config, cs: seq<Call>, a: nat, b: nat, file: string) {
    a < |cs| && b < |cs| && file == FileText(cfg, cs, a, b) + Closing(cs[b])
  }

  /** Every file holds its own run of calls, in order. */
  ghost predicate HoldsRuns(cfg: Config, cs: seq<Call>, starts: seq<nat>, f: Files)
    requires Splits(cfg, cs, starts)
  {
    var a := starts[|starts| - 1];
    && f.isOpen && f.current == FileText(cfg, cs, a, |cs|) && f.bytes == |Opening(cfg, cs[a])| + CountRange(cs, a, |cs|)
    && |f.finished| == |starts| - 1
    && forall k: nat :: k < |f.finished| ==> FinishedIs(cfg, cs, starts[k], starts[k + 1], f.finished[k])
  }

  lemma {:induction false} RangeStays(cs: seq<Call>, c: Call, a: nat, b: nat)
    requires b <= |cs|
    ensures RenderRange(cs + [c], a, b) == RenderRange(cs, a, b) && CountRange(cs + [c], a, b) == CountRange(cs, a, b)
    decreases b
  {
    if a < b {
      RangeStays(cs, c, a, b - 1);
    }
  }

  lemma OneFileStays(cfg: Config, cs: seq<Call>, c: Call, a: nat, b: nat)
    requires OneFile(cfg, cs, a, b)
    ensures OneFile(cfg, cs + [c], a, b)
  {
    forall j: nat | a < j < b ensures !Full(cfg, cs + [c], a, j) {
      RangeStays(cs, c, a, j);
      assert !Full(cfg, cs, a, j);
    }
  }

  lemma SplitStays(cfg: Config, cs: seq<Call>, c: Call, a: nat, b: nat)
    requires SplitAt(cfg, cs, a, b)
    ensures SplitAt(cfg, cs + [c], a, b)
  {
    OneFileStays(cfg, cs, c, a, b);
    RangeStays(cs, c, a, b);
  }

  lemma FinishedStays(cfg: Config, cs: seq<Call>, c: Call, a: nat, b: nat, file: string)
    requires FinishedIs(cfg, cs, a, b, file)
    ensures FinishedIs(cfg, cs + [c], a, b, file)
  {
    RangeStays(cs, c, a, b);
  }

  /** The call finds the file full: it opens the next one. */
  lemma OpensFile(cfg: Config, cs: seq<Call>, starts: seq<nat>, f: Files, c: Call)
    requires Splits(cfg, cs, starts) && HoldsRuns(cfg, cs, starts, f) && Full(cfg, cs + [c], starts[|starts| - 1], |cs|)
    ensures Splits(cfg, cs + [c], starts + [|cs|]) && HoldsRuns(cfg, cs + [c], starts + [|cs|], Emit(cfg, f, c))
  {
    var n, more, cs2, f2 := |starts|, starts + [|cs|], cs + [c], Emit(cfg, f, c);
    var a := starts[n - 1];
    RangeStays(cs, c, a, |cs|);
    OneFileStays(cfg, cs, c, a, |cs|);
    forall k: nat | k < n ensures SplitAt(cfg, cs2, more[k], more[k + 1]) {
      if k < n - 1 {
        SplitStays(cfg, cs, c, starts[k], starts[k + 1]);
      }
    }
    assert f2.finished == f.finished + [FileText(cfg, cs, a, |cs|) + Closing(c)];
    forall k: nat | k < n ensures FinishedIs(cfg, cs2, more[k], more[k + 1], f2.finished[k]) {
      if k < n - 1 {
        FinishedStays(cfg, cs, c, starts[k], starts[k + 1], f.finished[k]);
      }
    }
    assert f2.current == FileText(cfg, cs2, |cs|, |cs2|) by {
      assert RenderRange(cs2, |cs|, |cs2|) == "" + Rendered(c);
      assert "" + Rendered(c) == Rendered(c);
      assert Opening(cfg, c) + Spaces(2 * c.indent) + c.text == Opening(cfg, c) + Rendered(c);
    }
  }

  /** Otherwise it joins the file. */
  lemma JoinsFile(cfg: Config, cs: seq<Call>, starts: seq<nat>, f: Files, c: Call)
    requires Splits(cfg, cs, starts) && HoldsRuns(cfg, cs, starts, f)
             && !Full(cfg, cs + [c], starts[|starts| - 1], |cs|)
    ensures Splits(cfg, cs + [c], starts) && HoldsRuns(cfg, cs + [c], starts, Emit(cfg, f, c))
  {
    var n, cs2, f2 := |starts|, cs + [c], Emit(cfg, f, c);
    var a := starts[n - 1];
    RangeStays(cs, c, a, |cs|);
    OneFileStays(cfg, cs, c, a, |cs|);
    forall k: nat | k < n - 1 ensures SplitAt(cfg, cs2, starts[k], starts[k + 1]) {
      SplitStays(cfg, cs, c, starts[k], starts[k + 1]);
    }
    forall k: nat | k < n - 1 ensures FinishedIs(cfg, cs2, starts[k], starts[k + 1], f2.finished[k]) {
      FinishedStays(cfg, cs, c, starts[k], starts[k + 1], f.finished[k]);
    }
    assert f2.current == FileText(cfg, cs2, a, |cs2|) by {
      var o, r := Opening(cfg, cs[a]), RenderRange(cs, a, |cs|);
      assert o + r + Spaces(2 * c.indent) + c.text == o + (r + Rendered(c));
    }
  }

  lemma FirstFile(cfg: Config, c: Call)
    ensures Splits(cfg, [c], [0]) && HoldsRuns(cfg, [c], [0], Emit(cfg, Files([], false, "", 0), c))
  {
    assert RenderRange([c], 0, 1) == "" + Rendered(c) == Rendered(c);
    assert Opening(cfg, c) + Spaces(2 * c.indent) + c.text == Opening(cfg, c) + Rendered(c);
  }

  /** Every stream is cut into runs, one file each, at the calls that find their file full:
      each file is its opening, its calls and the closing, and nothing else. */
  lemma {:induction false} FilesPartition(cfg: Config, cs: seq<Call>) returns (starts: seq<nat>)
    requires cs != []
    ensures Splits(cfg, cs, starts) && HoldsRuns(cfg, cs, starts, EmitAll(cfg, Files([], false, "", 0), cs))
    decreases |cs|
  {
    var before, c := cs[..|cs| - 1], cs[|cs| - 1];
    var none := Files([], false, "", 0);
    assert cs == before + [c];
    EmitPush(cfg, none, before, c);
    assert EmitAll(cfg, none, []) == none;
    if before == [] {
      starts := [0];
      FirstFile(cfg, c);
    } else {
      var f := EmitAll(cfg, none, before);
      starts := FilesPartition(cfg, before);
      if Full(cfg, cs, starts[|starts| - 1], |before|) {
        OpensFile(cfg, before, starts, f, c);
        starts := starts + [|before|];
      } else {
        JoinsFile(cfg, before, starts, f, c);
      }
    }
  }

  /** The stream determines the cuts. */
  lemma {:induction false} SplitsAgree(cfg: Config, cs: seq<Call>, s: seq<nat>, t: seq<nat>, k: nat)
    requires Splits(cfg, cs, s) && Splits(cfg, cs, t) && k < |s|
    ensures k < |t| && s[k] == t[k]
  {
    if k > 0 {
      SplitsAgree(cfg, cs, s, t, k - 1);
      assert SplitAt(cfg, cs, s[k - 1], s[k - 1 + 1]);
      if k < |t| {
        assert SplitAt(cfg, cs, t[k - 1], t[k - 1 + 1]);
      }
    }
  }

  lemma CutsAreUnique(cfg: Config, cs: seq<Call>, s: seq<nat>, t: seq<nat>)
    requires Splits(cfg, cs, s) && Splits(cfg, cs, t)
    ensures s == t
  {
    SplitsAgree(cfg, cs, s, t, |s| - 1);
    SplitsAgree(cfg, cs, t, s, |t| - 1);
    forall k: nat | k < |s| ensures s[k] == t[k] {
      SplitsAgree(cfg, cs, s, t, k);
    }
  }

  class Emitter {
    const cfg: Config
    var finished: seq<string>
    var isOpen: bool
    var current: string
    var srcFileBytes: nat

    ghost function Now(): Files
      reads this
    {
      Files(finished, isOpen, current, srcFileBytes)
    }

    constructor (cfg: Config)
      ensures this.cfg == cfg && Now() == Files([], false, "", 0)
    {
      this.cfg := cfg;
      finished, isOpen, current, srcFileBytes := [], false, "", 0;
    }

    method RotateSrcFile(alreadyEndFunc: bool, nextFuncDef: Option)
      modifies this
      ensures Now() == Rotate(cfg, old(Now()), alreadyEndFunc, nextFuncDef)
    {
      if isOpen {
        if !alreadyEndFunc {
          current := current + "}";
        } else {
          assert current == current + "";
        }
        finished := finished + [current];
      }
      isOpen, current, srcFileBytes := true, cfg.header, |cfg.header|;
      if nextFuncDef.Some? {
        current := current + (nextFuncDef.text + " {\n");
        srcFileBytes := srcFileBytes + |nextFuncDef.text + " {\n"|;
      } else {
        assert cfg.header == cfg.header + "";
      }
    }

    /** __emitSrc without a capture target. */
    method EmitSrc(c: Call) returns (newFile: bool)
      modifies this
      ensures Now() == Emit(cfg, old(Now()), c)
      ensures newFile <==> !old(isOpen) || (old(srcFileBytes) > cfg.maxBytes && c.canNewFile)
    {
      newFile := false;
      if !isOpen || (srcFileBytes > cfg.maxBytes && c.canNewFile) {
        RotateSrcFile(c.alreadyEndFunc, c.nextFuncDef);
        newFile := true;
      }
      current := current + Spaces(2 * c.indent) + c.text;
      srcFileBytes := srcFileBytes + |c.text|;
    }

    /** A fresh emitter that is given the calls directly: the files are the runs of the stream. */
    method EmitStream(calls: seq<Call>) returns (ghost starts: seq<nat>)
      requires calls != [] && Now() == Files([], false, "", 0)
      modifies this
      ensures Splits(cfg, calls, starts) && HoldsRuns(cfg, calls, starts, Now())
    {
      for i := 0 to |calls|
        invariant Now() == EmitAll(cfg, old(Now()), calls[..i])
      {
        var newFile := EmitSrc(calls[i]);
        assert calls[..i + 1] == calls[..i] + [calls[i]];
        EmitPush(cfg, old(Now()), calls[..i], calls[i]);
      }
      assert calls[..|calls|] == calls;
      starts := FilesPartition(cfg, calls);
    }

    /** Replaying one captured call. */
    method Replay(k: Chunk, ghost c: Call)
      requires k == Capture(c)
      modifies this
      ensures Now() == Emit(cfg, old(Now()), c)
    {
      if !isOpen || (srcFileBytes > cfg.maxBytes && k.canNewFile) {
        RotateSrcFile(k.alreadyEndFunc, k.nextFuncDef);
      }
      current := current + k.text;
      srcFileBytes := srcFileBytes + k.countedBytes;
      assert forall a: string, b: string, d: string :: a + (b + d) == a + b + d;
    }

    /** flushEmitBufs: replaying the buffers in unit order writes what the units would have
        written one after the other. */
    method FlushEmitBufs(bufs: seq<seq<Chunk>>, ghost units: seq<seq<Call>>)
      requires |bufs| == |units| && forall u :: 0 <= u < |units| ==> bufs[u] == CaptureAll(units[u])
      modifies this
      ensures Now() == EmitAll(cfg, old(Now()), Stream(units))
    {
      for u := 0 to |bufs|
        invariant Now() == EmitAll(cfg, old(Now()), Stream(units[..u]))
      {
        assert units[..u + 1][..u] == units[..u] && units[..u + 1][u] == units[u];
        ghost var before := Now();
        ReplayBuf(bufs[u], units[u]);
        EmitConcat(cfg, old(Now()), Stream(units[..u]), units[u]);
      }
      assert units[..|units|] == units;
    }

    method ReplayBuf(buf: seq<Chunk>, ghost calls: seq<Call>)
      requires buf == CaptureAll(calls)
      modifies this
      ensures Now() == EmitAll(cfg, old(Now()), calls)
    {
      for i := 0 to |buf|
        invariant Now() == EmitAll(cfg, old(Now()), calls[..i])
      {
        Replay(buf[i], calls[i]);
        assert calls[..i + 1] == calls[..i] + [calls[i]];
        EmitPush(cfg, old(Now()), calls[..i], calls[i]);
      }
      assert calls[..|calls|] == calls;
    }
  }
}
