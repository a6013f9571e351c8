/** Commands and whole runs of them, on the map a user sees (the command loop of src/server.cpp). */
module Commands {
  import opened Basics
  import opened SlottedPage
  import opened KeyOrder
  import opened KeyText
  import opened DataAccessor
  import opened TreeHeight

  type Key = seq<Byte>

  /** Values by the key they are stored under. */
  type Model = map<Key, seq<Byte>>

  datatype Command = GetOf(key: Key) | ExistOf(key: Key) | SetOf(key: Key, value: seq<Byte>) | RemoveOf(key: Key)

  datatype Answer = Found(value: Option<seq<Byte>>) | Flag(b: bool) | Done

  /** The key a command works on: a set removes the old value first, which processes the key once more. */
  function Target(c: Command): Key {
    if c.SetOf? then ProcessKey(ProcessKey(c.key)) else ProcessKey(c.key)
  }

  function Lookup(m: Model, k: Key): Option<seq<Byte>> {
    if k in m then Some(m[k]) else None
  }

  function Apply(m: Model, c: Command): Model {
    match c
    case SetOf(_, value) => m[Target(c) := value]
    case RemoveOf(_) => m - {Target(c)}
    case _ => m
  }

  function Reply(m: Model, c: Command): Answer {
    match c
    case GetOf(_) => Found(Lookup(m, Target(c)))
    case SetOf(_, _) => Done
    case _ => Flag(Target(c) in m)
  }

  /** The map after a run. */
  function After(m: Model, cmds: seq<Command>): Model {
    if cmds == [] then m else Apply(After(m, cmds[..|cmds| - 1]), cmds[|cmds| - 1])
  }

  /** The answers of a run, in order. */
  function Replies(m: Model, cmds: seq<Command>): (r: seq<Answer>)
    ensures |r| == |cmds|
  {
    if cmds == [] then []
    else Replies(m, cmds[..|cmds| - 1]) + [Reply(After(m, cmds[..|cmds| - 1]), cmds[|cmds| - 1])]
  }

  lemma NextStep(m: Model, cmds: seq<Command>, c: Command)
    ensures After(m, cmds + [c]) == Apply(After(m, cmds), c)
    ensures Replies(m, cmds + [c]) == Replies(m, cmds) + [Reply(After(m, cmds), c)]
  {
    assert (cmds + [c])[..|cmds|] == cmds;
  }

  /** Whether a command can change what is stored under k. */
  predicate Writes(c: Command, k: Key) {
    (c.SetOf? || c.RemoveOf?) && Target(c) == k
  }

  /** Command i is the last of the run that writes k. */
  predicate LastWrite(cmds: seq<Command>, k: Key, i: int) {
    0 <= i < |cmds| && Writes(cmds[i], k) && forall j :: i < j < |cmds| ==> !Writes(cmds[j], k)
  }

  predicate LastSets(cmds: seq<Command>, k: Key, v: seq<Byte>, i: int) {
    LastWrite(cmds, k, i) && cmds[i].SetOf? && cmds[i].value == v
  }

  /** What a run leaves under k: the value of the last set, if the last command that writes k is a set, or what was there
      before, if no command writes k. */
  ghost predicate Holds(m: Model, cmds: seq<Command>, k: Key, v: seq<Byte>) {
    || (exists i :: LastSets(cmds, k, v, i))
    || (k in m && m[k] == v && forall i :: 0 <= i < |cmds| ==> !Writes(cmds[i], k))
  }

  /** The answer to a command that comes after a run: a value that was set last is found and no other, and an exist or a
      delete tells whether there is one. */
  ghost predicate AnswerIs(m: Model, cmds: seq<Command>, c: Command, answer: Answer) {
    match c
    case SetOf(_, _) => answer == Done
    case GetOf(_) => answer.Found? && forall v :: answer == Found(Some(v)) <==> Holds(m, cmds, Target(c), v)
    case _ => answer == Flag(exists v :: Holds(m, cmds, Target(c), v))
  }

  /** The last write decides: k has value v after a run exactly if the last command that writes k is a set of v, or if no
      command writes k and v was there before. */
  lemma {:induction false} LastWriteDecides(m: Model, cmds: seq<Command>, k: Key, v: seq<Byte>)
    ensures Lookup(After(m, cmds), k) == Some(v) <==> k in After(m, cmds) && After(m, cmds)[k] == v
    ensures Lookup(After(m, cmds), k) == Some(v) <==> Holds(m, cmds, k, v)
  {
    if cmds != [] {
      var n := |cmds| - 1;
      LastWriteDecides(m, cmds[..n], k, v);
      if Writes(cmds[n], k) {
        HoldsNow(m, cmds, k, v);
      } else {
        HoldsStill(m, cmds, k, v);
      }
    }
  }

  lemma HoldsNow(m: Model, cmds: seq<Command>, k: Key, v: seq<Byte>)
    requires cmds != [] && Writes(cmds[|cmds| - 1], k)
    ensures var c := cmds[|cmds| - 1]; Holds(m, cmds, k, v) <==> c.SetOf? && c.value == v
  {
    var n := |cmds| - 1;
    assert LastWrite(cmds, k, n);
    assert LastSets(cmds, k, v, n) <==> exists i :: LastSets(cmds, k, v, i);
  }

  lemma HoldsStill(m: Model, cmds: seq<Command>, k: Key, v: seq<Byte>)
    requires cmds != [] && !Writes(cmds[|cmds| - 1], k)
    ensures Holds(m, cmds, k, v) <==> Holds(m, cmds[..|cmds| - 1], k, v)
  {
    var rest := cmds[..|cmds| - 1];
    forall i ensures LastSets(rest, k, v, i) <==> LastSets(cmds, k, v, i) {
      EarlierWrite(cmds, k, i);
    }
    if forall i :: 0 <= i < |rest| ==> !Writes(rest[i], k) {
      forall i | 0 <= i < |cmds| ensures !Writes(cmds[i], k) {
        assert i < |rest| ==> cmds[i] == rest[i];
      }
    }
  }

  /** Every answer is decided by the commands before it. */
  lemma ReplyDecided(m: Model, cmds: seq<Command>, c: Command)
    ensures AnswerIs(m, cmds, c, Reply(After(m, cmds), c))
  {
    forall v ensures Lookup(After(m, cmds), Target(c)) == Some(v) <==> Holds(m, cmds, Target(c), v) {
      LastWriteDecides(m, cmds, Target(c), v);
    }
    if Target(c) in After(m, cmds) {
      assert Holds(m, cmds, Target(c), After(m, cmds)[Target(c)]);
    }
  }

  ghost predicate AnswersAre(m: Model, cmds: seq<Command>, answers: seq<Answer>) {
    |answers| <= |cmds| && forall i :: 0 <= i < |answers| ==> AnswerIs(m, cmds[..i], cmds[i], answers[i])
  }

  /** All answers of a run are decided that way. */
  lemma {:induction false} RepliesDecided(m: Model, cmds: seq<Command>)
    ensures AnswersAre(m, cmds, Replies(m, cmds))
  {
    if cmds != [] {
      var n := |cmds| - 1;
      RepliesDecided(m, cmds[..n]);
      ReplyDecided(m, cmds[..n], cmds[n]);
      forall i | 0 <= i < |cmds| ensures AnswerIs(m, cmds[..i], cmds[i], Replies(m, cmds)[i]) {
        assert i < n ==> cmds[..n][..i] == cmds[..i] && cmds[..n][i] == cmds[i] && Replies(m, cmds)[i] == Replies(m, cmds[..n])[i];
      }
    }
  }

  /** So is what is left after a run. */
  ghost predicate LeftBy(m: Model, cmds: seq<Command>, left: Model) {
    forall k, v {:trigger Holds(m, cmds, k, v)} :: k in left && left[k] == v <==> Holds(m, cmds, k, v)
  }

  lemma AfterDecided(m: Model, cmds: seq<Command>)
    ensures LeftBy(m, cmds, After(m, cmds))
  {
    forall k, v ensures k in After(m, cmds) && After(m, cmds)[k] == v <==> Holds(m, cmds, k, v) {
      LastWriteDecides(m, cmds, k, v);
    }
  }

  lemma SamePrefix(m: Model, cmds: seq<Command>, answers: seq<Answer>)
    requires |answers| <= |cmds| && AnswersAre(m, cmds[..|answers|], answers)
    ensures AnswersAre(m, cmds, answers)
  {
    forall i | 0 <= i < |answers| ensures AnswerIs(m, cmds[..i], cmds[i], answers[i]) {
      assert cmds[..|answers|][..i] == cmds[..i] && cmds[..|answers|][i] == cmds[i];
    }
  }

  lemma EarlierWrite(cmds: seq<Command>, k: Key, i: int)
    requires cmds != [] && !Writes(cmds[|cmds| - 1], k)
    ensures LastWrite(cmds[..|cmds| - 1], k, i) <==> LastWrite(cmds, k, i)
  {
    var rest := cmds[..|cmds| - 1];
    assert forall j :: 0 <= j < |rest| ==> rest[j] == cmds[j];
    if LastWrite(cmds, k, i) {
      assert LastWrite(rest, k, i);
    }
    if LastWrite(rest, k, i) {
      assert LastWrite(cmds, k, i);
    }
  }

  /** Nothing is ever stored under a key that processing would change. */
  lemma {:induction false} StoredKeysFixed(cmds: seq<Command>, k: Key)
    requires k in After(map[], cmds)
    ensures ProcessKey(k) == k
  {
    var n := |cmds| - 1;
    var m := After(map[], cmds[..n]);
    if k in m {
      StoredKeysFixed(cmds[..n], k);
    } else {
      TwiceIsEnough(cmds[n].key);
    }
  }

  /** Reading a key back right after setting it works exactly if the key is not cut after whitespace;
      for such a key nothing is found, whatever happened before. */
  lemma SetThenGet(cmds: seq<Command>, key: Key, v: seq<Byte>)
    ensures var m := After(map[], cmds + [SetOf(key, v)]);
            && Reply(m, GetOf(key)) == Found(if CutAfterSpace(key) then None else Some(v))
            && Reply(m, ExistOf(key)) == Flag(!CutAfterSpace(key))
  {
    var run := cmds + [SetOf(key, v)];
    NextStep(map[], cmds, SetOf(key, v));
    IdempotentExactly(key);
    if ProcessKey(key) in After(map[], run) {
      StoredKeysFixed(run, ProcessKey(key));
    }
  }

  /** The blob pages that the values set by a run may take. */
  function BlobPages(cmds: seq<Command>): nat {
    if cmds == [] then 0 else BlobPagesOf(cmds[0]) + BlobPages(cmds[1..])
  }

  function BlobPagesOf(c: Command): nat {
    if c.SetOf? then BlobPagesFor(|c.value|) else 0
  }

  /** The index pages that the sets of a run may take: one per level of the tree and one more, while entries are added. */
  function IndexPages(entries: nat, cmds: seq<Command>): nat
    decreases |cmds|
  {
    if cmds == [] then 0
    else if cmds[0].SetOf? then Log2(entries) + 2 + IndexPages(entries + 1, cmds[1..])
    else IndexPages(entries, cmds[1..])
  }

  lemma {:induction false} IndexPagesMonotone(a: nat, b: nat, cmds: seq<Command>)
    requires a <= b
    ensures IndexPages(a, cmds) <= IndexPages(b, cmds)
    decreases |cmds|
  {
    if cmds != [] {
      Log2Monotone(a, b);
      if cmds[0].SetOf? {
        IndexPagesMonotone(a + 1, b + 1, cmds[1..]);
      } else {
        IndexPagesMonotone(a, b, cmds[1..]);
      }
    }
  }

  /** What one command may take, on a store with this many entries, and how many entries it may add. */
  function IndexPagesOf(entries: nat, c: Command): nat {
    if c.SetOf? then Log2(entries) + 2 else 0
  }

  function EntriesOf(c: Command): nat {
    if c.SetOf? then 1 else 0
  }

  /** Enough free pages in both files for a run on a store with this many entries. */
  ghost predicate Affordable(indexRoom: int, blobRoom: int, entries: nat, cmds: seq<Command>) {
    indexRoom >= IndexPages(entries, cmds) && blobRoom >= BlobPages(cmds)
  }

  /** One command can be paid for, and then the rest can. */
  lemma AffordNext(indexRoom: int, blobRoom: int, entries: nat, indexRoom': int, blobRoom': int, entries': nat, cmds: seq<Command>)
    requires cmds != [] && Affordable(indexRoom, blobRoom, entries, cmds)
    ensures indexRoom >= IndexPagesOf(entries, cmds[0]) && blobRoom >= BlobPagesOf(cmds[0])
    ensures indexRoom' >= indexRoom - IndexPagesOf(entries, cmds[0]) && blobRoom' >= blobRoom - BlobPagesOf(cmds[0])
            && entries' <= entries + EntriesOf(cmds[0])
            ==> Affordable(indexRoom', blobRoom', entries', cmds[1..])
  {
    if entries' <= entries + EntriesOf(cmds[0]) {
      IndexPagesMonotone(entries', entries + EntriesOf(cmds[0]), cmds[1..]);
    }
  }

  /** Splitting a run after its first i + 1 commands. */
  lemma NextPrefix(m: Model, cmds: seq<Command>, i: nat)
    requires i < |cmds|
    ensures After(m, cmds[..i + 1]) == Apply(After(m, cmds[..i]), cmds[i])
    ensures Replies(m, cmds[..i + 1]) == Replies(m, cmds[..i]) + [Reply(After(m, cmds[..i]), cmds[i])]
    ensures cmds[i..] != [] && cmds[i..][0] == cmds[i] && cmds[i..][1..] == cmds[i + 1..]
  {
    NextStep(m, cmds[..i], cmds[i]);
    assert cmds[..i + 1] == cmds[..i] + [cmds[i]];
  }

  /** Keys are texts of chars. */
  ghost predicate ByteKeys(cmds: seq<Command>) {
    forall i :: 0 <= i < |cmds| ==> IsBytes(cmds[i].key)
  }

  /** A set damages the store exactly if the code mishandles the length of its value. */
  predicate Harmless(c: Command) {
    c.SetOf? ==> Storable(|c.value|)
  }

  predicate AllHarmless(cmds: seq<Command>) {
    forall i :: 0 <= i < |cmds| ==> Harmless(cmds[i])
  }

  /** The run came to a stop after n commands because the last of them, and no earlier one, damaged the store. */
  predicate StoppedAt(cmds: seq<Command>, n: nat)
    requires n <= |cmds|
  {
    0 < n && !Harmless(cmds[n - 1]) && AllHarmless(cmds[..n - 1])
  }

  lemma NextHarmless(cmds: seq<Command>, i: nat)
    requires i < |cmds| && AllHarmless(cmds[..i])
    ensures Harmless(cmds[i]) ==> AllHarmless(cmds[..i + 1])
    ensures !Harmless(cmds[i]) ==> !AllHarmless(cmds) && StoppedAt(cmds, i + 1)
  {
    assert forall j :: 0 <= j < i ==> cmds[..i][j] == cmds[j];
  }
}
