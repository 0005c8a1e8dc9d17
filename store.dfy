/**
 * The history file: its bytes, loaded into a buffer on first use and never
 * again while the buffer holds anything, split into NUL-separated records,
 * blank records skipped and every other record parsed, in file order.
 */
module Store {
  import opened Wrappers
  import opened Text
  import opened Seqs
  import opened Record
  import Query
  import Render

  type byte = b: int | 0 <= b < 256

  /** Why reading the history fails; the source panics in each case. */
  datatype Failure =
    | IoError                                             // opening or reading the file failed
    | MalformedRecord(record: string, reason: ParseError)  // a non-blank record did not parse

  /** `buffer.split(|b| *b == 0)`: the records between NUL bytes. */
  function Records(buffer: seq<byte>): seq<seq<byte>>
  {
    Split(buffer, 0)
  }

  /** The records are the buffer cut at every NUL: none holds a NUL, and together they are the buffer. */
  lemma RecordsCoverBuffer(buffer: seq<byte>)
    ensures Join(Records(buffer), [0]) == buffer
    ensures forall k :: 0 <= k < |Records(buffer)| ==> 0 !in Records(buffer)[k]
  {
    JoinSplit(buffer, 0);
    SplitPiecesFree(buffer, 0);
  }

  /** Each record decoded to text, in order. */
  function Decoded(records: seq<seq<byte>>, decode: seq<byte> -> string): (texts: seq<string>)
    ensures |texts| == |records|
  {
    seq(|records|, k requires 0 <= k < |records| => decode(records[k]))
  }

  /** Bytes below 128: each is a whole UTF-8 character by itself. */
  predicate Ascii(bytes: seq<byte>)
  {
    forall k :: 0 <= k < |bytes| ==> bytes[k] < 128
  }

  /** The characters whose codes are the given bytes. */
  function AsciiText(bytes: seq<byte>): (text: string)
    ensures |text| == |bytes|
  {
    seq(|bytes|, k requires 0 <= k < |bytes| => bytes[k] as char)
  }

  /**
   * What the model relies on of `String::from_utf8_lossy`: ASCII bytes,
   * the empty record included, decode to the characters with the same codes,
   * and only a NUL byte decodes to a NUL character (malformed input becomes
   * U+FFFD). Other bytes may otherwise decode to anything.
   */
  ghost predicate LossyUtf8(decode: seq<byte> -> string)
  {
    (forall bytes :: Ascii(bytes) ==> decode(bytes) == AsciiText(bytes)) &&
    (forall bytes :: 0 !in bytes ==> '\U{0}' !in decode(bytes))
  }

  /** Decoding record by record distributes over the records. */
  lemma DecodedAppend(a: seq<seq<byte>>, b: seq<seq<byte>>, decode: seq<byte> -> string)
    ensures Decoded(a + b, decode) == Decoded(a, decode) + Decoded(b, decode)
  {
  }

  /** `s.trim().is_empty()`. */
  predicate IsBlank(text: string)
  {
    Trim(text) == []
  }

  function NotBlank(): string -> bool
  {
    (text: string) => !IsBlank(text)
  }

  /**
   * The entries of the records, blank ones skipped; the first non-blank
   * record that does not parse makes the whole read fail.
   */
  function ParseRecords(texts: seq<string>): Result<seq<HistoryEntry>, Failure>
  {
    if texts == [] then Ok([])
    else if IsBlank(texts[0]) then ParseRecords(texts[1..])
    else match Parse(texts[0])
      case Err(why) => Err(MalformedRecord(texts[0], why))
      case Ok(e) =>
        match ParseRecords(texts[1..])
        case Err(f) => Err(f)
        case Ok(es) => Ok([e] + es)
  }

  /** The body of `read_all` once the buffer is loaded. */
  function Entries(buffer: seq<byte>, decode: seq<byte> -> string): Result<seq<HistoryEntry>, Failure>
  {
    ParseRecords(Decoded(Records(buffer), decode))
  }

  /** A blank record yields nothing and leaves the entries around it as they were. */
  lemma {:induction false} BlankRecordSkipped(before: seq<string>, blank: string, after: seq<string>)
    requires IsBlank(blank)
    ensures ParseRecords(before + [blank] + after) == ParseRecords(before + after)
  {
    if before == [] {
      assert (before + [blank] + after)[1..] == before + after;
    } else {
      assert (before + [blank] + after)[1..] == before[1..] + [blank] + after;
      assert (before + after)[1..] == before[1..] + after;
      BlankRecordSkipped(before[1..], blank, after);
    }
  }

  /** Reading succeeds exactly when every non-blank record parses. */
  lemma {:induction false} ParseRecordsSucceeds(texts: seq<string>)
    ensures ParseRecords(texts).Ok? <==>
      forall t :: t in Filter(texts, NotBlank()) ==> Parse(t).Ok?
  {
    if texts != [] {
      ParseRecordsSucceeds(texts[1..]);
      FilterMembers(texts[1..], NotBlank());
      FilterMembers(texts, NotBlank());
    }
  }

  /** On success there is one entry per non-blank record, in file order, each that record parsed. */
  lemma {:induction false} ParseRecordsEntries(texts: seq<string>)
    requires ParseRecords(texts).Ok?
    ensures var nb := Filter(texts, NotBlank());
      var es := ParseRecords(texts).value;
      |es| == |nb| && forall k :: 0 <= k < |nb| ==> Parse(nb[k]) == Ok(es[k])
  {
    if texts != [] {
      ParseRecordsEntries(texts[1..]);
      if !IsBlank(texts[0]) {
        var nb := Filter(texts, NotBlank());
        var es := ParseRecords(texts).value;
        assert nb == [texts[0]] + Filter(texts[1..], NotBlank());
        assert es == [Parse(texts[0]).value] + ParseRecords(texts[1..]).value;
      }
    }
  }

  /** A first record that is blank or parses passes a failure further on through unchanged. */
  lemma ParseRecordsPassesOn(texts: seq<string>)
    requires texts != [] && (IsBlank(texts[0]) || Parse(texts[0]).Ok?)
    ensures ParseRecords(texts).Err? <==> ParseRecords(texts[1..]).Err?
    ensures ParseRecords(texts).Err? ==> ParseRecords(texts).error == ParseRecords(texts[1..]).error
  {
  }

  /** Records before a failure that succeed stay successful with a good record put in front. */
  lemma ParseRecordsPrefixOk(texts: seq<string>, k: nat)
    requires texts != [] && (IsBlank(texts[0]) || Parse(texts[0]).Ok?)
    requires k < |texts| && ParseRecords(texts[1..][..k]).Ok?
    ensures ParseRecords(texts[..k + 1]).Ok?
  {
    assert texts[..k + 1][1..] == texts[1..][..k];
    assert texts[..k + 1][0] == texts[0];
  }

  /**
   * On failure the error names the first non-blank record that does not
   * parse, with the reason it does not: every record before it is blank or
   * parses.
   */
  lemma {:induction false} ParseRecordsFailure(texts: seq<string>)
    requires ParseRecords(texts).Err?
    ensures var f := ParseRecords(texts).error;
      exists k :: 0 <= k < |texts| && !IsBlank(texts[k]) && Parse(texts[k]).Err? &&
        f == MalformedRecord(texts[k], Parse(texts[k]).error) && ParseRecords(texts[..k]).Ok?
  {
    var f := ParseRecords(texts).error;
    var rest := texts[1..];
    if IsBlank(texts[0]) || Parse(texts[0]).Ok? {
      ParseRecordsPassesOn(texts);
      ParseRecordsFailure(rest);
      var k :| 0 <= k < |rest| && !IsBlank(rest[k]) && Parse(rest[k]).Err? &&
        f == MalformedRecord(rest[k], Parse(rest[k]).error) && ParseRecords(rest[..k]).Ok?;
      ParseRecordsPrefixOk(texts, k);
      assert texts[k + 1] == rest[k];
    } else {
      assert texts[..0] == [];
    }
  }

  /** The empty record decodes to the empty text, which is blank. */
  lemma EmptyRecordBlank(decode: seq<byte> -> string)
    requires LossyUtf8(decode)
    ensures decode([]) == [] && IsBlank(decode([]))
  {
    assert Ascii([]);
  }

  /** An empty history file has no entries: its one record is empty, hence blank. */
  lemma EmptyFileHasNoEntries(decode: seq<byte> -> string)
    requires LossyUtf8(decode)
    ensures Entries([], decode) == Ok([])
  {
    EmptyRecordBlank(decode);
    assert Records([]) == [[]];
    assert Decoded([[]], decode) == [decode([])];
  }

  /** A NUL after the last record adds only an empty record, which is skipped. */
  lemma TrailingNulIgnored(buffer: seq<byte>, decode: seq<byte> -> string)
    requires LossyUtf8(decode)
    ensures Entries(buffer + [0], decode) == Entries(buffer, decode)
  {
    var texts := Decoded(Records(buffer), decode);
    assert buffer + [0] == buffer + [0] + [];
    SplitConcat(buffer, 0, []);
    assert Records(buffer + [0]) == Records(buffer) + [[]];
    DecodedAppend(Records(buffer), [[]], decode);
    assert Decoded([[]], decode) == [decode([])];
    EmptyRecordBlank(decode);
    BlankRecordSkipped(texts, decode([]), []);
    assert texts + [decode([])] + [] == texts + [decode([])];
    assert texts + [] == texts;
  }

  /** Two NULs in a row enclose one empty record; a single NUL encloses none. */
  lemma RecordsAroundNul(before: seq<byte>, after: seq<byte>)
    ensures Records(before + [0, 0] + after) == Records(before) + [[]] + Records(after)
    ensures Records(before + [0] + after) == Records(before) + Records(after)
  {
    assert before + [0, 0] + after == before + [0] + ([] + [0] + after);
    SplitConcat(before, 0, [] + [0] + after);
    SplitConcat([], 0, after);
    assert [] + [0] + after == [0] + after;
    SplitConcat(before, 0, after);
  }

  /** A record that decodes to a blank text, put between two runs of records, changes nothing. */
  lemma BlankRecordBetween(a: seq<seq<byte>>, b: seq<seq<byte>>, decode: seq<byte> -> string)
    requires IsBlank(decode([]))
    ensures ParseRecords(Decoded(a + [[]] + b, decode)) == ParseRecords(Decoded(a + b, decode))
  {
    DecodedAppend(a + [[]], b, decode);
    DecodedAppend(a, [[]], decode);
    DecodedAppend(a, b, decode);
    assert Decoded([[]], decode) == [decode([])];
    BlankRecordSkipped(Decoded(a, decode), decode([]), Decoded(b, decode));
  }

  /** Two NULs in a row enclose an empty record, which is skipped: they read as one. */
  lemma DoubledNulIgnored(before: seq<byte>, after: seq<byte>, decode: seq<byte> -> string)
    requires LossyUtf8(decode)
    ensures Entries(before + [0, 0] + after, decode) == Entries(before + [0] + after, decode)
  {
    RecordsAroundNul(before, after);
    EmptyRecordBlank(decode);
    BlankRecordBetween(Records(before), Records(after), decode);
  }

  /** Every record decodes to a text without NUL, since the records are cut at every NUL byte. */
  lemma DecodedNulFree(buffer: seq<byte>, decode: seq<byte> -> string)
    requires LossyUtf8(decode)
    ensures var texts := Decoded(Records(buffer), decode);
      forall k :: 0 <= k < |texts| ==> '\U{0}' !in texts[k]
  {
    RecordsCoverBuffer(buffer);
  }

  /** A parsed command is the tail of its record, so it holds no character the record does not. */
  lemma CommandWithin(s: string, c: char)
    requires Parse(s).Ok? && c !in s
    ensures c !in Parse(s).value.command
  {
    var e := Parse(s).value;
    ParsedShape(s);
    var start := |s| - |e.command|;
    forall i | 0 <= i < |e.command|
      ensures e.command[i] == s[start + i]
    {
    }
  }

  /** No command read from the history file holds a NUL. */
  lemma EntriesNulFree(buffer: seq<byte>, decode: seq<byte> -> string)
    requires LossyUtf8(decode) && Entries(buffer, decode).Ok?
    ensures forall e :: e in Entries(buffer, decode).value ==> '\U{0}' !in e.command
  {
    var texts := Decoded(Records(buffer), decode);
    var nb := Filter(texts, NotBlank());
    var es := Entries(buffer, decode).value;
    DecodedNulFree(buffer, decode);
    ParseRecordsEntries(texts);
    FilterMembers(texts, NotBlank());
    forall e | e in es
      ensures '\U{0}' !in e.command
    {
      var k :| 0 <= k < |es| && es[k] == e;
      assert nb[k] in nb;
      CommandWithin(nb[k], '\U{0}');
    }
  }

  /** No command a successful query answers holds a NUL. */
  lemma CommandsWithNulFree(buffer: seq<byte>, decode: seq<byte> -> string, dir: string, prefix: string)
    requires LossyUtf8(decode) && Entries(buffer, decode).Ok?
    ensures var cs := Query.CommandsWith(Entries(buffer, decode).value, dir, prefix);
      forall k :: 0 <= k < |cs| ==> '\U{0}' !in cs[k]
  {
    var es := Entries(buffer, decode).value;
    var cs := Query.CommandsWith(es, dir, prefix);
    EntriesNulFree(buffer, decode);
    Query.CommandsWithAnswers(es, dir, prefix);
    forall k | 0 <= k < |cs|
      ensures '\U{0}' !in cs[k]
    {
      assert cs[k] in cs;
    }
  }

  /**
   * The printed answer of a successful query ends in a newline and cuts back,
   * at its NULs, into the commands the query returned.
   */
  lemma PrintedCommandsReadBack(buffer: seq<byte>, decode: seq<byte> -> string, dir: string, prefix: string)
    requires LossyUtf8(decode) && Entries(buffer, decode).Ok?
    ensures var cs := Query.CommandsWith(Entries(buffer, decode).value, dir, prefix);
      var out := Render.CommandList(cs);
      out[|out| - 1] == '\n' &&
      (cs != [] ==>
        Split(out[..|out| - 1], '\U{0}') ==
        [cs[0]] + seq(|cs| - 1, i requires 0 <= i < |cs| - 1 => "\n" + cs[i + 1]))
  {
    var cs := Query.CommandsWith(Entries(buffer, decode).value, dir, prefix);
    CommandsWithNulFree(buffer, decode, dir, prefix);
    Render.CommandListShape(cs);
  }

  /**
   * The history file (`HistoryFile`). The bytes on disk are a parameter of
   * each read: `None` when opening or reading the file fails.
   */
  class HistoryFile {
    const path: string
    var buffer: seq<byte>
    /** How often the file has been read; it is not in the source, it makes the memoisation visible. */
    ghost var fileReads: nat

    /** `HistoryFile::new`: nothing is read yet. */
    constructor (path: string)
      ensures this.path == path && buffer == [] && fileReads == 0
    {
      this.path := path;
      buffer := [];
      fileReads := 0;
    }

    /**
     * The load step of `read_all`: the file is read only while the buffer is
     * empty; otherwise neither the buffer nor the file is touched.
     */
    twostate predicate LoadedFrom(disk: Option<seq<byte>>)
      reads this
    {
      if old(buffer) != [] then buffer == old(buffer) && fileReads == old(fileReads)
      else fileReads == old(fileReads) + 1 && buffer == (if disk.Some? then disk.value else [])
    }

    /** `read_all`: load on first use, then the entries of the buffer. */
    method ReadAll(disk: Option<seq<byte>>, decode: seq<byte> -> string) returns (r: Result<seq<HistoryEntry>, Failure>)
      requires LossyUtf8(decode)
      modifies this
      ensures LoadedFrom(disk)
      ensures r == if old(buffer) == [] && disk.None? then Err(IoError) else Entries(buffer, decode)
    {
      if buffer == [] {
        fileReads := fileReads + 1;
        if disk.None? {
          return Err(IoError);
        }
        buffer := disk.value;
      }
      r := Entries(buffer, decode);
    }

    /** `read_all_by_dir`: the entries in `dir` first, then the others. */
    method ReadAllByDir(disk: Option<seq<byte>>, decode: seq<byte> -> string, dir: string) returns (r: Result<seq<HistoryEntry>, Failure>)
      requires LossyUtf8(decode)
      modifies this
      ensures LoadedFrom(disk)
      ensures r == if old(buffer) == [] && disk.None? then Err(IoError) else
        match Entries(buffer, decode)
        case Err(f) => Err(f)
        case Ok(es) => Ok(Query.ByDirectory(es, dir))
    {
      var all := ReadAll(disk, decode);
      match all {
        case Err(f) => r := Err(f);
        case Ok(es) => r := Ok(Query.ByDirectory(es, dir));
      }
    }

    /** `read_all_with`: the directory stage only for a non-empty `dir`, then the prefix filter. */
    method ReadAllWith(disk: Option<seq<byte>>, decode: seq<byte> -> string, dir: string, prefix: string)
      returns (r: Result<seq<HistoryEntry>, Failure>)
      requires LossyUtf8(decode)
      modifies this
      ensures LoadedFrom(disk)
      ensures r == if old(buffer) == [] && disk.None? then Err(IoError) else
        match Entries(buffer, decode)
        case Err(f) => Err(f)
        case Ok(es) => Ok(Query.ReadAllWith(es, dir, prefix))
    {
      var picked: Result<seq<HistoryEntry>, Failure>;
      if dir == [] {
        picked := ReadAll(disk, decode);
      } else {
        picked := ReadAllByDir(disk, decode, dir);
      }
      match picked {
        case Err(f) => r := Err(f);
        case Ok(es) => r := Ok(Filter(es, Query.CommandStartsWith(prefix)));
      }
    }

    /** `read_commands_with`: the distinct commands of `read_all_with`, each where it first occurs. */
    method ReadCommandsWith(disk: Option<seq<byte>>, decode: seq<byte> -> string, dir: string, prefix: string)
      returns (r: Result<seq<string>, Failure>)
      requires LossyUtf8(decode)
      modifies this
      ensures LoadedFrom(disk)
      ensures r == if old(buffer) == [] && disk.None? then Err(IoError) else
        match Entries(buffer, decode)
        case Err(f) => Err(f)
        case Ok(es) => Ok(Query.CommandsWith(es, dir, prefix))
      ensures r.Ok? ==> forall k :: 0 <= k < |r.value| ==> '\U{0}' !in r.value[k]
    {
      var picked := ReadAllWith(disk, decode, dir, prefix);
      match picked {
        case Err(f) => r := Err(f);
        case Ok(es) =>
          var cmds := Query.UniqueCommands(es);
          r := Ok(cmds);
          CommandsWithNulFree(buffer, decode, dir, prefix);
      }
    }
  }

  /**
   * Two reads through one `HistoryFile`. A non-empty file is read once: the
   * second read parses the same bytes whatever the file holds by then. An
   * empty file (or a failed read) leaves the buffer empty, so the second
   * read goes to the file again.
   */
  method ReadTwice(path: string, first: Option<seq<byte>>, second: Option<seq<byte>>, decode: seq<byte> -> string)
    returns (r1: Result<seq<HistoryEntry>, Failure>, r2: Result<seq<HistoryEntry>, Failure>, ghost readCount: nat)
    requires LossyUtf8(decode)
    ensures r1 == if first.None? then Err(IoError) else Entries(first.value, decode)
    ensures first == Some([]) ==> r1 == Ok([])
    ensures first.Some? && first.value != [] ==> r2 == r1 && readCount == 1
    ensures !(first.Some? && first.value != []) ==>
      readCount == 2 && r2 == (if second.None? then Err(IoError) else Entries(second.value, decode))
  {
    var h := new HistoryFile(path);
    r1 := h.ReadAll(first, decode);
    EmptyFileHasNoEntries(decode);
    r2 := h.ReadAll(second, decode);
    readCount := h.fileReads;
  }
}
