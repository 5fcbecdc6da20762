/** Cutting a FIRRTL source into parse tasks (src/firParser.cpp, findNextModuleMarker and
    the first half of parseFIR). */
module ParseTasks {

  type Words = seq<string>

  /** What starts a module header. */
  const Keywords: Words := [
    "module ", "public module ", "private module ", "protected module ",
    "extmodule ", "public extmodule ", "private extmodule ", "protected extmodule ",
    "intmodule ", "public intmodule ", "private intmodule ", "protected intmodule "]

  const ModulesPerTask: nat := 5

  datatype Task = Task(offset: nat, len: nat, lineno: nat, id: nat)

  // ----- module headers

  ghost predicate HeaderAt(kw: Words, text: string, p: nat) {
    p <= |text| && exists k :: 0 <= k < |kw| && kw[k] <= text[p..]
  }

  /** The newline at p is followed by two blanks and a module header. */
  ghost predicate IsMarker(kw: Words, text: string, p: nat) {
    p + 3 <= |text| && text[p] == '\n' && text[p + 1] == ' ' && text[p + 2] == ' ' && HeaderAt(kw, text, p + 3)
  }

  method StartsWithHeader(kw: Words, text: string, p: nat) returns (found: bool)
    requires p <= |text|
    ensures found <==> HeaderAt(kw, text, p)
  {
    found := false;
    for k := 0 to |kw|
      invariant found <==> exists j :: 0 <= j < k && kw[j] <= text[p..]
    {
      if kw[k] <= text[p..] {
        found := true;
      }
    }
  }

  /** findNextModuleMarker: the first marker from start on, or the end of the text. */
  method FindNextModuleMarker(kw: Words, text: string, start: nat) returns (p: nat)
    requires start <= |text|
    ensures start <= p <= |text| && (p < |text| ==> IsMarker(kw, text, p))
    ensures forall q :: start <= q < p ==> !IsMarker(kw, text, q)
  {
    p := start;
    while p < |text|
      invariant start <= p <= |text|
      invariant forall q :: start <= q < p ==> !IsMarker(kw, text, q)
    {
      if text[p] == '\n' && p + 3 <= |text| && text[p + 1] == ' ' && text[p + 2] == ' ' {
        var found := StartsWithHeader(kw, text, p + 3);
        if found {
          return;
        }
      }
      p := p + 1;
    }
  }

  ghost predicate MarkerAt(kw: Words, text: string, ms: seq<nat>, i: nat) {
    i < |ms| && ms[i] < |text| && IsMarker(kw, text, ms[i]) && forall j :: 0 <= j < i ==> ms[j] < ms[i]
  }

  /** All markers below n, in order. */
  ghost predicate Markers(kw: Words, text: string, ms: seq<nat>, n: nat) {
    && (forall i :: 0 <= i < |ms| ==> ms[i] < n && MarkerAt(kw, text, ms, i))
    && (forall p: nat :: p < n && IsMarker(kw, text, p) ==> p in ms)
  }

  method FindAll(kw: Words, text: string) returns (ms: seq<nat>)
    ensures Markers(kw, text, ms, |text|)
  {
    ms := [];
    var next := 0;
    while next < |text|
      invariant next <= |text| && Markers(kw, text, ms, next)
    {
      var p := FindNextModuleMarker(kw, text, next);
      if p == |text| {
        return;
      }
      AddMarker(kw, text, ms, next, p);
      ms := ms + [p];
      next := p + 1;
    }
  }

  lemma AddMarker(kw: Words, text: string, ms: seq<nat>, n: nat, p: nat)
    requires Markers(kw, text, ms, n) && n <= p < |text| && IsMarker(kw, text, p) && forall q :: n <= q < p ==>
               !IsMarker(kw, text, q)
    ensures Markers(kw, text, ms + [p], p + 1)
  {
    var more := ms + [p];
    forall i | 0 <= i < |more| ensures more[i] < p + 1 && MarkerAt(kw, text, more, i) {
      assert i < |ms| ==> MarkerAt(kw, text, ms, i);
    }
  }

  // ----- tasks

  function Newlines(text: string): nat {
    if text == [] then 0 else Newlines(text[..|text| - 1]) + if text[|text| - 1] == '\n' then 1 else 0
  }

  /** What a parser reads from a position: up to the next terminator. */
  function CString(buf: string, from: nat): string
    requires from <= |buf|
    decreases |buf| - from
  {
    if from == |buf| || buf[from] == '\0' then [] else [buf[from]] + CString(buf, from + 1)
  }

  function End(t: Task): int {
    t.offset + t.len - 1
  }

  /** Where task i begins: behind the cut of the one before. */
  function Start(tasks: seq<Task>, i: nat): int
    requires i <= |tasks|
  {
    if i == 0 then 0 else End(tasks[i - 1]) + 1
  }

  /** Task i lies behind its predecessor, is numbered in order and knows its first line. */
  ghost predicate TaskAt(text: string, tasks: seq<Task>, i: nat) {
    && i < |tasks| && tasks[i].id == i && tasks[i].len > 0 && End(tasks[i]) <= |text|
    && tasks[i].offset == Start(tasks, i)
    && tasks[i].lineno == 1 + Newlines(text[..tasks[i].offset])
  }

  /** It is cut off at the newline before a module header. */
  ghost predicate CutOff(ms: seq<nat>, text: string, buf: string, t: Task) {
    |buf| == |text| && 0 <= End(t) < |text| && End(t) in ms && text[End(t)] == '\n' && buf[End(t)] == '\0'
  }

  ghost predicate CutOffAt(ms: seq<nat>, text: string, buf: string, tasks: seq<Task>, i: nat) {
    i < |tasks| && CutOff(ms, text, buf, tasks[i])
  }

  ghost predicate CutAt(tasks: seq<Task>, p: nat) {
    exists i :: 0 <= i < |tasks| && p == End(tasks[i])
  }

  /** The buffer is the text with a terminator at every cut. */
  ghost predicate BufferOk(text: string, buf: string, tasks: seq<Task>) {
    |buf| == |text| && forall p: nat :: p < |text| ==> buf[p] == text[p] || CutAt(tasks, p)
  }

  ghost predicate TasksTo(ms: seq<nat>, text: string, buf: string, tasks: seq<Task>, prev: nat) {
    && prev <= |text| && prev == Start(tasks, |tasks|) && BufferOk(text, buf, tasks)
    && (forall i :: 0 <= i < |tasks| ==> TaskAt(text, tasks, i) && CutOffAt(ms, text, buf, tasks, i))
  }

  /** All tasks: the last one takes the rest. */
  ghost predicate TasksOk(ms: seq<nat>, text: string, buf: string, tasks: seq<Task>) {
    && |tasks| > 0 && End(tasks[|tasks| - 1]) == |text| && BufferOk(text, buf, tasks)
    && (forall i :: 0 <= i < |tasks| ==> TaskAt(text, tasks, i))
    && (forall i :: 0 <= i < |tasks| - 1 ==> CutOffAt(ms, text, buf, tasks, i))
  }

  /** Counting the newlines between two positions. */
  method CountLines(text: string, from: nat, end: nat, lineno: nat) returns (next: nat)
    requires from <= end <= |text| && lineno == 1 + Newlines(text[..from])
    ensures next == 1 + Newlines(text[..end])
  {
    next := lineno;
    for p := from to end
      invariant next == 1 + Newlines(text[..p])
    {
      assert text[..p + 1][..p] == text[..p];
      if text[p] == '\n' {
        next := next + 1;
      }
    }
  }

  /** One task ends at the marker, whose newline becomes a terminator. */
  method CutAtMarker(ms: seq<nat>, text: string, buf0: string, tasks0: seq<Task>, prev: nat, lineno: nat, split: nat)
    returns (buf: string, tasks: seq<Task>, next: nat)
    requires TasksTo(ms, text, buf0, tasks0, prev) && lineno == 1 + Newlines(text[..prev]) && prev <= split < |text|
             && split in ms && text[split] == '\n'
    ensures TasksTo(ms, text, buf, tasks, split + 1) && next == 1 + Newlines(text[..split + 1])
    ensures tasks == tasks0 + [Task(prev, split - prev + 1, lineno, |tasks0|)]
  {
    tasks := tasks0 + [Task(prev, split - prev + 1, lineno, |tasks0|)];
    buf := buf0[split := '\0'];
    TaskAdded(ms, text, buf0, tasks0, prev, split, lineno, buf, tasks);
    next := CountThrough(text, prev, split, lineno);
  }

  method CountThrough(text: string, from: nat, split: nat, lineno: nat) returns (next: nat)
    requires from <= split < |text| && lineno == 1 + Newlines(text[..from]) && text[split] == '\n'
    ensures next == 1 + Newlines(text[..split + 1])
  {
    next := CountLines(text, from, split, lineno);
    assert text[..split + 1][..split] == text[..split];
    next := next + 1;
  }

  lemma NoTasks(ms: seq<nat>, text: string)
    ensures TasksTo(ms, text, text, [], 0) && Newlines(text[..0]) == 0
  {
  }

  ghost predicate Ascends(ms: seq<nat>, text: string) {
    && (forall i :: 0 <= i < |ms| ==> ms[i] < |text| && text[ms[i]] == '\n')
    && (forall i, j :: 0 <= i < j < |ms| ==> ms[i] < ms[j])
  }

  /** The first n tasks end at every fifth marker. */
  ghost predicate FifthCuts(ms: seq<nat>, tasks: seq<Task>, n: nat) {
    forall i: nat :: i < n <= |tasks| ==> FifthCut(ms, tasks[i], i)
  }

  ghost predicate FifthCut(ms: seq<nat>, t: Task, i: nat) {
    ModulesPerTask * (i + 1) < |ms| && End(t) == ms[ModulesPerTask * (i + 1)]
  }

  /** Every fifth marker ends a task, and no other position but the end does. */
  ghost predicate EveryFifth(ms: seq<nat>, tasks: seq<Task>) {
    |tasks| > 0 && |ms| <= ModulesPerTask * |tasks| && FifthCuts(ms, tasks, |tasks| - 1)
  }

  method CutTasks(ms: seq<nat>, text: string) returns (buf: string, tasks: seq<Task>)
    requires Ascends(ms, text)
    ensures TasksOk(ms, text, buf, tasks) && EveryFifth(ms, tasks)
  {
    NoTasks(ms, text);
    buf, tasks := text, [];
    var prev: nat, lineno: nat, idx: nat := 0, 1, 0;
    while idx + ModulesPerTask < |ms|
      invariant Progress(ms, text, buf, tasks, prev, lineno, idx)
      invariant idx == ModulesPerTask * |tasks| && FifthCuts(ms, tasks, |tasks|)
      decreases |ms| - idx
    {
      buf, tasks, lineno := CutNext(ms, text, buf, tasks, prev, lineno, idx);
      prev := ms[idx + ModulesPerTask] + 1;
      idx := idx + ModulesPerTask;
    }
    LastTask(ms, text, buf, tasks, prev, lineno);
    tasks := tasks + [Task(prev, |text| - prev + 1, lineno, |tasks|)];
  }

  ghost predicate Progress(ms: seq<nat>, text: string, buf: string, tasks: seq<Task>, prev: nat, lineno: nat,
                           idx: nat) {
    && TasksTo(ms, text, buf, tasks, prev) && lineno == 1 + Newlines(text[..prev])
    && (prev == 0 || (idx < |ms| && prev == ms[idx] + 1))
  }

  method CutNext(ms: seq<nat>, text: string, buf0: string, tasks0: seq<Task>, prev: nat, lineno: nat, idx: nat)
    returns (buf: string, tasks: seq<Task>, next: nat)
    requires Progress(ms, text, buf0, tasks0, prev, lineno, idx)
    requires idx + ModulesPerTask < |ms| && Ascends(ms, text)
    requires idx == ModulesPerTask * |tasks0| && FifthCuts(ms, tasks0, |tasks0|)
    ensures Progress(ms, text, buf, tasks, ms[idx + ModulesPerTask] + 1, next, idx + ModulesPerTask)
    ensures |tasks| == |tasks0| + 1 && FifthCuts(ms, tasks, |tasks|)
  {
    buf, tasks, next := CutAtMarker(ms, text, buf0, tasks0, prev, lineno, ms[idx + ModulesPerTask]);
  }

  /** The tasks of a FIRRTL source, cut at its module headers. */
  method CutSource(text: string) returns (ms: seq<nat>, buf: string, tasks: seq<Task>)
    ensures Markers(Keywords, text, ms, |text|) && TasksOk(ms, text, buf, tasks) && EveryFifth(ms, tasks)
  {
    ms := FindAll(Keywords, text);
    MarkersAscend(Keywords, text, ms);
    buf, tasks := CutTasks(ms, text);
  }

  lemma MarkersAscend(kw: Words, text: string, ms: seq<nat>)
    requires Markers(kw, text, ms, |text|)
    ensures Ascends(ms, text)
  {
    forall i | 0 <= i < |ms| ensures ms[i] < |text| && text[ms[i]] == '\n' && forall j :: 0 <= j < i ==> ms[j] < ms[i] {
      assert MarkerAt(kw, text, ms, i);
    }
  }

  lemma TaskStays(text: string, tasks: seq<Task>, t: Task, i: nat)
    requires i < |tasks| && TaskAt(text, tasks, i)
    ensures TaskAt(text, tasks + [t], i) && (tasks + [t])[i] == tasks[i]
  {
  }

  lemma TaskNew(text: string, tasks: seq<Task>, prev: nat, end: nat, lineno: nat)
    requires prev == Start(tasks, |tasks|) && prev <= end <= |text| && lineno == 1 + Newlines(text[..prev])
    ensures var t := Task(prev, end - prev + 1, lineno, |tasks|); TaskAt(text, tasks + [t], |tasks|) && End(t) == end
  {
  }

  lemma CutsGrow(tasks: seq<Task>, t: Task, p: nat)
    ensures CutAt(tasks, p) || p == End(t) ==> CutAt(tasks + [t], p)
  {
    var more := tasks + [t];
    assert more[|tasks|] == t;
    if CutAt(tasks, p) {
      var i :| 0 <= i < |tasks| && p == End(tasks[i]);
      assert p == End(more[i]);
    }
  }

  lemma TaskAdded(ms: seq<nat>, text: string, buf: string, tasks: seq<Task>, prev: nat, split: nat, lineno: nat,
                  buf2: string, tasks2: seq<Task>)
    requires TasksTo(ms, text, buf, tasks, prev) && prev <= split < |text| && split in ms && text[split] == '\n'
             && lineno == 1 + Newlines(text[..prev])
    requires buf2 == buf[split := '\0'] && tasks2 == tasks + [Task(prev, split - prev + 1, lineno, |tasks|)]
    ensures TasksTo(ms, text, buf2, tasks2, split + 1)
  {
    var t := Task(prev, split - prev + 1, lineno, |tasks|);
    TaskNew(text, tasks, prev, split, lineno);
    forall i | 0 <= i < |tasks2| ensures TaskAt(text, tasks2, i) && CutOffAt(ms, text, buf2, tasks2, i) {
      if i < |tasks| {
        TaskStays(text, tasks, t, i);
        assert CutOffAt(ms, text, buf, tasks, i);
      }
    }
    forall p: nat | p < |text| ensures buf2[p] == text[p] || CutAt(tasks2, p) {
      CutsGrow(tasks, t, p);
    }
  }

  lemma BufferStays(text: string, buf: string, tasks: seq<Task>, t: Task)
    requires BufferOk(text, buf, tasks)
    ensures BufferOk(text, buf, tasks + [t])
  {
    forall p: nat | p < |text| ensures buf[p] == text[p] || CutAt(tasks + [t], p) {
      CutsGrow(tasks, t, p);
    }
  }

  lemma LastTask(ms: seq<nat>, text: string, buf: string, tasks: seq<Task>, prev: nat, lineno: nat)
    requires TasksTo(ms, text, buf, tasks, prev) && lineno == 1 + Newlines(text[..prev])
    ensures TasksOk(ms, text, buf, tasks + [Task(prev, |text| - prev + 1, lineno, |tasks|)])
  {
    var t := Task(prev, |text| - prev + 1, lineno, |tasks|);
    var tasks2 := tasks + [t];
    TaskNew(text, tasks, prev, |text|, lineno);
    forall i | 0 <= i < |tasks2|
      ensures TaskAt(text, tasks2, i) && (i < |tasks| ==> CutOffAt(ms, text, buf, tasks2, i))
    {
      if i < |tasks| {
        TaskStays(text, tasks, t, i);
        assert CutOffAt(ms, text, buf, tasks, i);
      }
    }
    BufferStays(text, buf, tasks, t);
  }

  // ----- the tasks partition the text

  ghost function Piece(text: string, t: Task): string
    requires t.len > 0 && End(t) <= |text|
  {
    text[t.offset..End(t)]
  }

  /** A parser that starts at a task reads exactly that task's piece of the source. */
  lemma {:induction false} ReadsPiece(text: string, buf: string, from: nat, end: nat)
    requires |buf| == |text| && from <= end <= |text| && '\0' !in text
    requires (end < |text| ==> buf[end] == '\0') && forall p: nat :: from <= p < end ==> buf[p] == text[p]
    ensures CString(buf, from) == text[from..end]
    decreases end - from
  {
    if from < end {
      assert text[from] in text;
      ReadsPiece(text, buf, from + 1, end);
      assert text[from..end] == [text[from]] + text[from + 1..end];
    } else {
      assert text[from..end] == [];
    }
  }

  /** Ends come in order, so no cut lies inside another task. */
  lemma {:induction false} OffsetsGrow(text: string, tasks: seq<Task>, i: nat, j: nat)
    requires (forall k :: 0 <= k < |tasks| ==> TaskAt(text, tasks, k)) && i < j < |tasks|
    ensures End(tasks[i]) < tasks[j].offset
    decreases j
  {
    assert TaskAt(text, tasks, j) && TaskAt(text, tasks, j - 1);
    if i < j - 1 {
      OffsetsGrow(text, tasks, i, j - 1);
    }
  }

  lemma NotCut(text: string, tasks: seq<Task>, i: nat, p: nat)
    requires (forall k :: 0 <= k < |tasks| ==> TaskAt(text, tasks, k)) && i < |tasks|
             && tasks[i].offset <= p < End(tasks[i])
    ensures !CutAt(tasks, p)
  {
    forall j | 0 <= j < |tasks| ensures p != End(tasks[j]) {
      if j < i {
        OffsetsGrow(text, tasks, j, i);
      } else if i < j {
        assert TaskAt(text, tasks, j);
        OffsetsGrow(text, tasks, i, j);
      }
    }
  }

  lemma TaskReadsPiece(ms: seq<nat>, text: string, buf: string, tasks: seq<Task>, i: nat)
    requires TasksOk(ms, text, buf, tasks) && i < |tasks| && '\0' !in text
    ensures tasks[i].len > 0 && 0 <= End(tasks[i]) <= |text| && tasks[i].offset <= |buf|
    ensures CString(buf, tasks[i].offset) == Piece(text, tasks[i])
  {
    assert TaskAt(text, tasks, i);
    assert i < |tasks| - 1 ==> CutOffAt(ms, text, buf, tasks, i);
    forall p: nat | tasks[i].offset <= p < End(tasks[i]) ensures buf[p] == text[p] {
      NotCut(text, tasks, i, p);
    }
    ReadsPiece(text, buf, tasks[i].offset, End(tasks[i]));
  }

  /** The pieces, joined by the newlines they were cut at. */
  ghost function Joined(text: string, tasks: seq<Task>, n: nat): string
    requires n <= |tasks| && forall i :: 0 <= i < n ==> tasks[i].len > 0 && 0 <= End(tasks[i]) <= |text|
    decreases n
  {
    if n == 0 then [] else if n == 1 then Piece(text, tasks[0])
    else Joined(text, tasks, n - 1) + "\n" + Piece(text, tasks[n - 1])
  }

  lemma {:induction false} JoinedPrefix(ms: seq<nat>, text: string, buf: string, tasks: seq<Task>, n: nat)
    requires TasksOk(ms, text, buf, tasks) && 0 < n <= |tasks|
    requires forall i :: 0 <= i < |tasks| ==> tasks[i].len > 0 && 0 <= End(tasks[i]) <= |text|
    ensures Joined(text, tasks, n) == text[..End(tasks[n - 1])]
    decreases n
  {
    assert TaskAt(text, tasks, n - 1);
    if n == 1 {
      assert text[0..End(tasks[0])] == text[..End(tasks[0])];
    } else {
      JoinedPrefix(ms, text, buf, tasks, n - 1);
      assert CutOffAt(ms, text, buf, tasks, n - 2);
      Rejoin(text, End(tasks[n - 2]), End(tasks[n - 1]));
    }
  }

  lemma Rejoin(text: string, e: nat, end: nat)
    requires e < end <= |text| && text[e] == '\n'
    ensures text[..end] == text[..e] + "\n" + text[e + 1..end]
  {
  }

  /** Nothing is lost or read twice. */
  lemma TasksPartition(ms: seq<nat>, text: string, buf: string, tasks: seq<Task>)
    requires TasksOk(ms, text, buf, tasks)
    ensures forall i :: 0 <= i < |tasks| ==> tasks[i].len > 0 && 0 <= End(tasks[i]) <= |text|
    ensures Joined(text, tasks, |tasks|) == text
  {
    forall i | 0 <= i < |tasks| ensures tasks[i].len > 0 && 0 <= End(tasks[i]) <= |text| {
      assert TaskAt(text, tasks, i);
    }
    JoinedPrefix(ms, text, buf, tasks, |tasks|);
    assert text[..|text|] == text;
  }
}
