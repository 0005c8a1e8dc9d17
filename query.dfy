/**
 * The query pipeline over the entries of a history file: the
 * directory-priority partition (`read_all_by_dir`), the command-prefix
 * filter (`read_all_with`) and first-wins deduplication of the commands
 * (`read_commands_with`).
 */
module Query {
  import opened Text
  import opened Seqs
  import opened Record

  /* ----------------------------------------------------- directory priority */

  function AtDirectory(dir: string): HistoryEntry -> bool
  {
    (e: HistoryEntry) => e.directory == dir
  }

  function ElsewhereThan(dir: string): HistoryEntry -> bool
  {
    (e: HistoryEntry) => e.directory != dir
  }

  /**
   * `Iterator::partition` on `e.directory == dir`: one pass that pushes each
   * entry onto the matching or the other vector.
   */
  function Partition(es: seq<HistoryEntry>, dir: string, matching: seq<HistoryEntry>, others: seq<HistoryEntry>): (seq<HistoryEntry>, seq<HistoryEntry>)
    decreases |es|
  {
    if es == [] then (matching, others)
    else if es[0].directory == dir then Partition(es[1..], dir, matching + [es[0]], others)
    else Partition(es[1..], dir, matching, others + [es[0]])
  }

  /** `read_all_by_dir`: the entries in `dir`, then all the others. */
  function ByDirectory(es: seq<HistoryEntry>, dir: string): seq<HistoryEntry>
  {
    var (matching, others) := Partition(es, dir, [], []);
    matching + others
  }

  /** The partition appends to the first vector exactly the entries in `dir`. */
  lemma {:induction false} PartitionMatching(es: seq<HistoryEntry>, dir: string, matching: seq<HistoryEntry>, others: seq<HistoryEntry>)
    ensures Partition(es, dir, matching, others).0 == matching + Filter(es, AtDirectory(dir))
    decreases |es|
  {
    var at := AtDirectory(dir);
    if es == [] {
      assert matching + [] == matching;
    } else if es[0].directory == dir {
      PartitionMatching(es[1..], dir, matching + [es[0]], others);
      assert Filter(es, at) == [es[0]] + Filter(es[1..], at);
      assert matching + [es[0]] + Filter(es[1..], at) == matching + Filter(es, at);
    } else {
      PartitionMatching(es[1..], dir, matching, others + [es[0]]);
      assert Filter(es, at) == Filter(es[1..], at);
    }
  }

  /** The partition appends to the second vector exactly the entries elsewhere. */
  lemma {:induction false} PartitionOthers(es: seq<HistoryEntry>, dir: string, matching: seq<HistoryEntry>, others: seq<HistoryEntry>)
    ensures Partition(es, dir, matching, others).1 == others + Filter(es, ElsewhereThan(dir))
    decreases |es|
  {
    var elsewhere := ElsewhereThan(dir);
    if es == [] {
      assert others + [] == others;
    } else if es[0].directory == dir {
      PartitionOthers(es[1..], dir, matching + [es[0]], others);
      assert Filter(es, elsewhere) == Filter(es[1..], elsewhere);
    } else {
      PartitionOthers(es[1..], dir, matching, others + [es[0]]);
      assert Filter(es, elsewhere) == [es[0]] + Filter(es[1..], elsewhere);
      assert others + [es[0]] + Filter(es[1..], elsewhere) == others + Filter(es, elsewhere);
    }
  }

  /**
   * A stable two-way partition: the entries in `dir` in their original
   * order, followed by every other entry in its original order.
   */
  lemma ByDirectoryIsStablePartition(es: seq<HistoryEntry>, dir: string)
    ensures ByDirectory(es, dir) == Filter(es, AtDirectory(dir)) + Filter(es, ElsewhereThan(dir))
  {
    PartitionMatching(es, dir, [], []);
    PartitionOthers(es, dir, [], []);
  }

  /** Reordering by directory neither drops nor duplicates an entry. */
  lemma ByDirectoryPermutes(es: seq<HistoryEntry>, dir: string)
    ensures multiset(ByDirectory(es, dir)) == multiset(es)
  {
    ByDirectoryIsStablePartition(es, dir);
    FilterSplits(es, AtDirectory(dir), ElsewhereThan(dir));
  }

  /** No entry outside `dir` comes before an entry in `dir`. */
  lemma ByDirectoryPutsDirectoryFirst(es: seq<HistoryEntry>, dir: string, i: nat, j: nat)
    requires i < j < |ByDirectory(es, dir)|
    requires ByDirectory(es, dir)[j].directory == dir
    ensures ByDirectory(es, dir)[i].directory == dir
  {
    ByDirectoryIsStablePartition(es, dir);
    var m := Filter(es, AtDirectory(dir));
    var o := Filter(es, ElsewhereThan(dir));
    var r := ByDirectory(es, dir);
    FilterMembers(es, AtDirectory(dir));
    FilterMembers(es, ElsewhereThan(dir));
    forall k | |m| <= k < |r|
      ensures r[k].directory != dir
    {
      assert r[k] == o[k - |m|] && o[k - |m|] in o;
    }
    assert r[i] == m[i] && m[i] in m;
  }

  /* ---------------------------------------------------------- prefix filter */

  function CommandStartsWith(prefix: string): HistoryEntry -> bool
  {
    (e: HistoryEntry) => StartsWith(e.command, prefix)
  }

  /**
   * `read_all_with`: the directory stage only when `dir` is not empty, then
   * the entries whose command starts with `prefix`.
   */
  function ReadAllWith(es: seq<HistoryEntry>, dir: string, prefix: string): seq<HistoryEntry>
  {
    if dir == [] then Filter(es, CommandStartsWith(prefix))
    else Filter(ByDirectory(es, dir), CommandStartsWith(prefix))
  }

  /**
   * Exactly the entries whose command starts with `prefix` come out, each as
   * often as it went in: the directory stage only reorders them, into the
   * matching ones followed by the others, each group in file order.
   */
  lemma ReadAllWithSelects(es: seq<HistoryEntry>, dir: string, prefix: string)
    ensures multiset(ReadAllWith(es, dir, prefix)) == multiset(Filter(es, CommandStartsWith(prefix)))
    ensures dir == [] ==> ReadAllWith(es, dir, prefix) == Filter(es, CommandStartsWith(prefix))
    ensures dir != [] ==> (ReadAllWith(es, dir, prefix) ==
      Filter(Filter(es, AtDirectory(dir)), CommandStartsWith(prefix)) +
      Filter(Filter(es, ElsewhereThan(dir)), CommandStartsWith(prefix)))
  {
    if dir != [] {
      var p := CommandStartsWith(prefix);
      var m := Filter(es, AtDirectory(dir));
      var o := Filter(es, ElsewhereThan(dir));
      ByDirectoryIsStablePartition(es, dir);
      FilterAppend(m, o, p);
      var pm := Filter(es, p);
      FilterSplits(pm, AtDirectory(dir), ElsewhereThan(dir));
      FilterCommute(es, p, AtDirectory(dir));
      FilterCommute(es, p, ElsewhereThan(dir));
    }
  }

  /** Two filters can be applied in either order. */
  lemma {:induction false} FilterCommute(s: seq<HistoryEntry>, p: HistoryEntry -> bool, q: HistoryEntry -> bool)
    ensures Filter(Filter(s, p), q) == Filter(Filter(s, q), p)
  {
    if s != [] {
      FilterCommute(s[1..], p, q);
      var h := [s[0]];
      var pf := if p(s[0]) then h else [];
      var qf := if q(s[0]) then h else [];
      FilterAppend(pf, Filter(s[1..], p), q);
      FilterAppend(qf, Filter(s[1..], q), p);
    }
  }

  /** With no directory and no prefix every entry comes out, in file order. */
  lemma ReadAllWithNothing(es: seq<HistoryEntry>)
    ensures ReadAllWith(es, "", "") == es
  {
    FilterKeepsAll(es, CommandStartsWith(""));
  }

  /* ----------------------------------------------------------------- dedup */

  /** The command of every entry, in order. */
  function Commands(es: seq<HistoryEntry>): (cs: seq<string>)
    ensures |cs| == |es| && forall i :: 0 <= i < |es| ==> cs[i] == es[i].command
  {
    seq(|es|, i requires 0 <= i < |es| => es[i].command)
  }

  /**
   * First-wins deduplication: each distinct command once, where it first
   * occurs. Defined from the back, the way a left-to-right pass with a
   * seen-set builds it.
   */
  function Distinct(cs: seq<string>): (r: seq<string>)
    ensures forall c :: c in r <==> c in cs
  {
    if cs == [] then []
    else
      var r := Distinct(cs[..|cs| - 1]);
      var c := cs[|cs| - 1];
      if c in r then r else r + [c]
  }

  predicate NoDuplicates(cs: seq<string>)
  {
    forall i, j :: 0 <= i < j < |cs| ==> cs[i] != cs[j]
  }

  /** Where `c` first occurs in `cs`. */
  function FirstIndex(cs: seq<string>, c: string): (k: nat)
    requires c in cs
    ensures k < |cs| && cs[k] == c && c !in cs[..k]
  {
    if cs[0] == c then 0 else 1 + FirstIndex(cs[1..], c)
  }

  /** The deduplicated commands hold no command twice. */
  lemma {:induction false} DistinctHasNoDuplicates(cs: seq<string>)
    ensures NoDuplicates(Distinct(cs))
  {
    if cs != [] {
      DistinctHasNoDuplicates(cs[..|cs| - 1]);
    }
  }

  /** Earlier in the deduplicated commands means first occurring earlier in the input. */
  lemma {:induction false} DistinctKeepsFirstOccurrenceOrder(cs: seq<string>, i: nat, j: nat)
    requires i < j < |Distinct(cs)|
    ensures FirstIndex(cs, Distinct(cs)[i]) < FirstIndex(cs, Distinct(cs)[j])
  {
    var p := cs[..|cs| - 1];
    var r := Distinct(p);
    var x := Distinct(cs)[i];
    var y := Distinct(cs)[j];
    FirstIndexInPrefix(cs, x);
    if j < |r| {
      FirstIndexInPrefix(cs, y);
      DistinctKeepsFirstOccurrenceOrder(p, i, j);
    } else {
      assert y == cs[|cs| - 1] && y !in p;
      assert x in p;
      LastIsFirstOccurrence(cs);
    }
  }

  /**
   * Each distinct command sits at the position of its first occurrence,
   * relative to the others: one comes before another in the output exactly
   * when it first occurs before it in the input.
   */
  lemma DistinctOrder(cs: seq<string>, i: nat, j: nat)
    requires i < |Distinct(cs)| && j < |Distinct(cs)|
    ensures i < j <==> FirstIndex(cs, Distinct(cs)[i]) < FirstIndex(cs, Distinct(cs)[j])
  {
    if i < j {
      DistinctKeepsFirstOccurrenceOrder(cs, i, j);
    } else if j < i {
      DistinctKeepsFirstOccurrenceOrder(cs, j, i);
    }
  }

  /** An element of the input without its last command keeps its first position. */
  lemma FirstIndexInPrefix(cs: seq<string>, c: string)
    requires cs != [] && c in cs[..|cs| - 1]
    ensures FirstIndex(cs, c) == FirstIndex(cs[..|cs| - 1], c)
  {
    var p := cs[..|cs| - 1];
    var k := FirstIndex(p, c);
    FirstIndexAt(cs, c, k);
  }

  /** A command seen for the first time at the end is first found at the end. */
  lemma LastIsFirstOccurrence(cs: seq<string>)
    requires cs != [] && cs[|cs| - 1] !in cs[..|cs| - 1]
    ensures FirstIndex(cs, cs[|cs| - 1]) == |cs| - 1
  {
    FirstIndexAt(cs, cs[|cs| - 1], |cs| - 1);
  }

  /** Any position holding `c` with no `c` before it is the first index of `c`. */
  lemma {:induction false} FirstIndexAt(cs: seq<string>, c: string, k: nat)
    requires k < |cs| && cs[k] == c && c !in cs[..k]
    ensures FirstIndex(cs, c) == k
  {
    if k > 0 {
      assert cs[0] == cs[..k][0];
      assert cs[1..][..k - 1] == cs[..k][1..];
      FirstIndexAt(cs[1..], c, k - 1);
    }
  }

  /** A sequence without duplicates is its own deduplication. */
  lemma {:induction false} DistinctOfDistinct(cs: seq<string>)
    requires NoDuplicates(cs)
    ensures Distinct(cs) == cs
  {
    if cs != [] {
      var p := cs[..|cs| - 1];
      DistinctOfDistinct(p);
      assert cs == p + [cs[|cs| - 1]];
    }
  }

  /** Deduplicating twice is deduplicating once. */
  lemma DistinctIdempotent(cs: seq<string>)
    ensures Distinct(Distinct(cs)) == Distinct(cs)
  {
    DistinctHasNoDuplicates(cs);
    DistinctOfDistinct(Distinct(cs));
  }

  /**
   * The deduplicating `filter_map` of `read_commands_with`: a seen-set grows
   * as the entries stream past, and a command is emitted only the first time
   * it is seen.
   */
  method UniqueCommands(es: seq<HistoryEntry>) returns (cmds: seq<string>)
    ensures cmds == Distinct(Commands(es))
  {
    var seen: set<string> := {};
    cmds := [];
    for i := 0 to |es|
      invariant cmds == Distinct(Commands(es[..i]))
      invariant forall c :: c in seen <==> c in cmds
    {
      var c := es[i].command;
      assert Commands(es[..i + 1])[..i] == Commands(es[..i]);
      if c in seen {
      } else {
        seen := seen + {c};
        cmds := cmds + [c];
      }
    }
    assert es[..|es|] == es;
  }

  /** `read_commands_with` on already-read entries. */
  function CommandsWith(es: seq<HistoryEntry>, dir: string, prefix: string): seq<string>
  {
    Distinct(Commands(ReadAllWith(es, dir, prefix)))
  }

  /** The entries a query keeps are exactly those of the file whose command starts with `prefix`. */
  lemma ReadAllWithMembers(es: seq<HistoryEntry>, dir: string, prefix: string)
    ensures forall e :: e in ReadAllWith(es, dir, prefix) <==> e in es && StartsWith(e.command, prefix)
  {
    ReadAllWithSelects(es, dir, prefix);
    var picked := ReadAllWith(es, dir, prefix);
    var wanted := Filter(es, CommandStartsWith(prefix));
    FilterMembers(es, CommandStartsWith(prefix));
    forall e
      ensures e in picked <==> e in wanted
    {
      assert e in picked <==> e in multiset(picked);
      assert e in wanted <==> e in multiset(wanted);
    }
  }

  /** A command is among the commands exactly when some entry has it. */
  lemma CommandsMembers(es: seq<HistoryEntry>)
    ensures forall c :: c in Commands(es) <==> exists e :: e in es && e.command == c
  {
    forall c | c in Commands(es)
      ensures exists e :: e in es && e.command == c
    {
      var k :| 0 <= k < |es| && Commands(es)[k] == c;
      assert es[k] in es;
    }
    forall c | exists e :: e in es && e.command == c
      ensures c in Commands(es)
    {
      var e :| e in es && e.command == c;
      var k :| 0 <= k < |es| && es[k] == e;
      assert Commands(es)[k] == c;
    }
  }

  /**
   * The answer to a query: no command twice, each starting with `prefix`,
   * and every command of the file that starts with `prefix` present.
   */
  lemma CommandsWithAnswers(es: seq<HistoryEntry>, dir: string, prefix: string)
    ensures NoDuplicates(CommandsWith(es, dir, prefix))
    ensures forall c :: c in CommandsWith(es, dir, prefix) <==>
      StartsWith(c, prefix) && exists e :: e in es && e.command == c
  {
    var picked := ReadAllWith(es, dir, prefix);
    DistinctHasNoDuplicates(Commands(picked));
    ReadAllWithMembers(es, dir, prefix);
    CommandsMembers(picked);
  }

  lemma CommandsAppend(a: seq<HistoryEntry>, b: seq<HistoryEntry>)
    ensures Commands(a + b) == Commands(a) + Commands(b)
  {
  }

  /** A command first occurs no later than any of its occurrences. */
  lemma {:induction false} FirstIndexAtMost(cs: seq<string>, c: string, k: nat)
    requires k < |cs| && cs[k] == c
    ensures FirstIndex(cs, c) <= k
  {
    if cs[0] != c {
      FirstIndexAtMost(cs[1..], c, k - 1);
    }
  }

  /** A command occurring in the front part comes before every command occurring only in the back part. */
  lemma DistinctFrontFirst(front: seq<string>, back: seq<string>, i: nat, j: nat)
    requires i < |Distinct(front + back)| && j < |Distinct(front + back)|
    requires Distinct(front + back)[i] in front && Distinct(front + back)[j] !in front
    ensures i < j
  {
    var cs := front + back;
    var r := Distinct(cs);
    var k :| 0 <= k < |front| && front[k] == r[i];
    assert cs[k] == r[i];
    FirstIndexAtMost(cs, r[i], k);
    forall k' | 0 <= k' < |front|
      ensures cs[k'] != r[j]
    {
      assert front[k'] in front;
    }
    DistinctOrder(cs, i, j);
  }

  /** A command of the query run in `dir` is among those of the directory's own entries. */
  lemma RunHereIsInFront(es: seq<HistoryEntry>, dir: string, prefix: string, e: HistoryEntry)
    requires e in es && e.directory == dir && StartsWith(e.command, prefix)
    ensures e.command in Commands(Filter(Filter(es, AtDirectory(dir)), CommandStartsWith(prefix)))
  {
    var m := Filter(Filter(es, AtDirectory(dir)), CommandStartsWith(prefix));
    FilterMembers(es, AtDirectory(dir));
    FilterMembers(Filter(es, AtDirectory(dir)), CommandStartsWith(prefix));
    assert e in m;
    var k :| 0 <= k < |m| && m[k] == e;
    assert Commands(m)[k] == e.command;
  }

  /** A command never run in `dir` is not among those of the directory's own entries. */
  lemma NeverRunHereNotInFront(es: seq<HistoryEntry>, dir: string, prefix: string, c: string)
    requires forall e :: e in es && e.command == c ==> e.directory != dir
    ensures c !in Commands(Filter(Filter(es, AtDirectory(dir)), CommandStartsWith(prefix)))
  {
    var m := Filter(Filter(es, AtDirectory(dir)), CommandStartsWith(prefix));
    FilterMembers(es, AtDirectory(dir));
    FilterMembers(Filter(es, AtDirectory(dir)), CommandStartsWith(prefix));
    forall k | 0 <= k < |m|
      ensures Commands(m)[k] != c
    {
      assert m[k] in m;
    }
  }

  /**
   * Directory priority survives deduplication: a command run in `dir` comes
   * before every command that was never run in `dir`.
   */
  lemma CommandsWithDirectoryFirst(es: seq<HistoryEntry>, dir: string, prefix: string, i: nat, j: nat)
    requires dir != []
    requires i < |CommandsWith(es, dir, prefix)| && j < |CommandsWith(es, dir, prefix)|
    requires exists e :: e in es && e.directory == dir && e.command == CommandsWith(es, dir, prefix)[i]
    requires forall e :: e in es && e.command == CommandsWith(es, dir, prefix)[j] ==> e.directory != dir
    ensures i < j
  {
    var out := CommandsWith(es, dir, prefix);
    var pre := CommandStartsWith(prefix);
    var m := Filter(Filter(es, AtDirectory(dir)), pre);
    var o := Filter(Filter(es, ElsewhereThan(dir)), pre);
    ReadAllWithSelects(es, dir, prefix);
    CommandsAppend(m, o);
    assert out == Distinct(Commands(m) + Commands(o));
    assert out[i] in out;
    CommandsWithAnswers(es, dir, prefix);
    var e :| e in es && e.directory == dir && e.command == out[i];
    RunHereIsInFront(es, dir, prefix, e);
    NeverRunHereNotInFront(es, dir, prefix, out[j]);
    DistinctFrontFirst(Commands(m), Commands(o), i, j);
  }

  /* -------------------------------------------------------------- examples */

  function ExampleEntries(): seq<HistoryEntry>
  {
    [HistoryEntry(100, 5, "/a", "ls"), HistoryEntry(200, 0, "/b", "cd x"), HistoryEntry(300, 2, "/a", "ls -l")]
  }

  /** The partition of the example on `/a`. */
  lemma ExampleByDirectory()
    ensures ByDirectory(ExampleEntries(), "/a") == [ExampleEntries()[0], ExampleEntries()[2], ExampleEntries()[1]]
  {
    var es := ExampleEntries();
    ByDirectoryIsStablePartition(es, "/a");
    var at := AtDirectory("/a");
    var other := ElsewhereThan("/a");
    assert es[1..][1..] == [es[2]];
    assert Filter([es[2]], at) == [es[2]];
    assert Filter(es[1..], at) == [es[2]];
    assert Filter(es, at) == [es[0], es[2]];
    assert Filter([es[2]], other) == [];
    assert Filter(es[1..], other) == [es[1]];
    assert Filter(es, other) == [es[1]];
  }

  /** The three example commands are distinct. */
  lemma ExampleCommandsDistinct()
    ensures Distinct(["ls", "ls -l", "cd x"]) == ["ls", "ls -l", "cd x"]
  {
    var cs := ["ls", "ls -l", "cd x"];
    assert cs[0] != cs[1] by { assert |cs[0]| != |cs[1]|; }
    assert cs[0] != cs[2] by { assert cs[0][0] != cs[2][0]; }
    assert cs[1] != cs[2] by { assert cs[1][0] != cs[2][0]; }
    DistinctOfDistinct(cs);
  }

  /** With an empty prefix the example query keeps the partition whole. */
  lemma ExampleStream()
    ensures ReadAllWith(ExampleEntries(), "/a", "") == [ExampleEntries()[0], ExampleEntries()[2], ExampleEntries()[1]]
  {
    var es := ExampleEntries();
    ExampleByDirectory();
    var picked := [es[0], es[2], es[1]];
    forall e | e in picked
      ensures CommandStartsWith("")(e)
    {
      assert [] <= e.command;
    }
    FilterKeepsAll(picked, CommandStartsWith(""));
  }

  /** Both entries of `/a` come first, in file order, then the one of `/b`. */
  lemma ExampleDirectoryFirst()
    ensures CommandsWith(ExampleEntries(), "/a", "") == ["ls", "ls -l", "cd x"]
  {
    var es := ExampleEntries();
    ExampleStream();
    var picked := [es[0], es[2], es[1]];
    assert Commands(picked) == ["ls", "ls -l", "cd x"];
    ExampleCommandsDistinct();
  }

  /** Without a directory, only the commands starting with `ls`, in file order. */
  lemma ExamplePrefix()
    ensures CommandsWith(ExampleEntries(), "", "ls") == ["ls", "ls -l"]
  {
    var es := ExampleEntries();
    var p := CommandStartsWith("ls");
    assert p(es[0]) && !p(es[1]) && p(es[2]) by {
      assert "cd x"[0] != "ls"[0];
    }
    assert es[1..][1..] == [es[2]];
    assert Filter([es[2]], p) == [es[2]];
    assert Filter(es[1..], p) == [es[2]];
    assert Filter(es, p) == [es[0], es[2]];
    var picked := [es[0], es[2]];
    assert picked[0].command == "ls" && picked[1].command == "ls -l";
    assert Commands(picked) == ["ls", "ls -l"];
    DistinctOfDistinct(["ls", "ls -l"]);
  }

  /** A command run twice comes out once. */
  lemma ExampleDuplicate()
    ensures CommandsWith([HistoryEntry(1, 0, "/a", "ls"), HistoryEntry(2, 0, "/a", "ls")], "", "") == ["ls"]
  {
    var es := [HistoryEntry(1, 0, "/a", "ls"), HistoryEntry(2, 0, "/a", "ls")];
    ReadAllWithNothing(es);
    assert Commands(es) == ["ls", "ls"];
    assert ["ls", "ls"][..1] == ["ls"];
    assert ["ls"][..0] == [];
    assert Distinct(["ls"]) == ["ls"];
  }
}
