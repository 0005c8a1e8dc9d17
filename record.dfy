/**
 * One history record, `<marker>:<timestamp>[:<duration>];<directory>;<command>`,
 * and its parser (`HistoryEntry::from_str`). Every point where the parser
 * panics becomes an error of its own, in the order the parser reaches them.
 */
module Record {
  import opened Wrappers
  import opened Text

  /** One recorded invocation. */
  datatype HistoryEntry = HistoryEntry(timestamp: U64, duration: U64, directory: string, command: string)

  /** The panic points of `from_str`. */
  datatype ParseError =
    | TooManyMetaFields  // the meta field has more than three `:`-separated subfields
    | MissingTimestamp   // the meta field has no second subfield
    | BadTimestamp       // the trimmed second subfield is not a u64
    | BadDuration        // the trimmed third subfield is not a u64
    | MissingDirectory   // the record has no `;`
    | MissingCommand     // the record has only one `;`

  /**
   * The meta field: a discarded marker, the timestamp, and an optional
   * duration that defaults to 0.
   */
  function ParseMeta(meta: string): Result<(U64, U64), ParseError>
  {
    var items := Split(meta, ':');
    if |items| > 3 then Err(TooManyMetaFields)
    else if |items| < 2 then Err(MissingTimestamp)
    else match ParseU64(Trim(items[1]))
      case None => Err(BadTimestamp)
      case Some(ts) =>
        if |items| == 3 then
          match ParseU64(Trim(items[2]))
          case None => Err(BadDuration)
          case Some(dur) => Ok((ts, dur))
        else Ok((ts, 0))
  }

  /**
   * `HistoryEntry::from_str`: at most three `;`-fields, so the command keeps
   * any further `;`; the directory and the command are taken verbatim.
   */
  function Parse(s: string): Result<HistoryEntry, ParseError>
  {
    var fields := SplitN(s, ';', 3);
    match ParseMeta(fields[0])
    case Err(why) => Err(why)
    case Ok((ts, dur)) =>
      if |fields| < 2 then Err(MissingDirectory)
      else if |fields| < 3 then Err(MissingCommand)
      else Ok(HistoryEntry(ts, dur, fields[1], fields[2]))
  }

  /** The record as the shell writes it, with both meta numbers present. */
  function Format(marker: string, e: HistoryEntry): string
  {
    marker + ":" + Decimal(e.timestamp) + ":" + Decimal(e.duration) + ";" + e.directory + ";" + e.command
  }

  /* ------------------------------------------------------------ the meta field */

  /** A meta field without any `:` has no timestamp. */
  lemma MetaWithoutTimestamp(meta: string)
    requires ':' !in meta
    ensures ParseMeta(meta) == Err(MissingTimestamp)
  {
    SplitNoSep(meta, ':');
  }

  /** `marker:ts` gives the trimmed timestamp and a duration of 0. */
  lemma MetaTwoSubfields(marker: string, ts: string)
    requires ':' !in marker && ':' !in ts
    ensures ParseMeta(marker + ":" + ts) ==
      match ParseU64(Trim(ts))
      case None => Err(BadTimestamp)
      case Some(t) => Ok((t, 0))
  {
    SplitConcat(marker, ':', ts);
    SplitNoSep(marker, ':');
    SplitNoSep(ts, ':');
  }

  /** `marker:ts:dur` gives the trimmed timestamp and the trimmed duration. */
  lemma MetaThreeSubfields(marker: string, ts: string, dur: string)
    requires ':' !in marker && ':' !in ts && ':' !in dur
    ensures ParseMeta(marker + ":" + ts + ":" + dur) ==
      match (ParseU64(Trim(ts)), ParseU64(Trim(dur)))
      case (None, _) => Err(BadTimestamp)
      case (Some(_), None) => Err(BadDuration)
      case (Some(t), Some(d)) => Ok((t, d))
  {
    assert marker + ":" + ts + ":" + dur == marker + [':'] + (ts + [':'] + dur);
    SplitConcat(marker, ':', ts + [':'] + dur);
    SplitConcat(ts, ':', dur);
    SplitNoSep(marker, ':');
    SplitNoSep(ts, ':');
    SplitNoSep(dur, ':');
  }

  /** Three `:` or more make more than three subfields, which is rejected whatever follows. */
  lemma MetaTooManySubfields(a: string, b: string, c: string, rest: string)
    ensures ParseMeta(a + ":" + b + ":" + c + ":" + rest) == Err(TooManyMetaFields)
  {
    assert a + ":" + b + ":" + c + ":" + rest == a + [':'] + (b + [':'] + (c + [':'] + rest));
    SplitConcat(a, ':', b + [':'] + (c + [':'] + rest));
    SplitConcat(b, ':', c + [':'] + rest);
    SplitConcat(c, ':', rest);
  }

  /* -------------------------------------------------------- the record fields */

  /** A record of three `;`-fields parses to its directory and its whole remainder, verbatim. */
  lemma ParseFields(meta: string, dir: string, cmd: string)
    requires ';' !in meta && ';' !in dir
    ensures Parse(meta + ";" + dir + ";" + cmd) ==
      match ParseMeta(meta)
      case Err(why) => Err(why)
      case Ok((ts, dur)) => Ok(HistoryEntry(ts, dur, dir, cmd))
  {
    SplitN3(meta, dir, cmd, ';');
  }

  /** A record with a single `;` has no command; the meta field is still checked first. */
  lemma ParseWithoutCommand(meta: string, dir: string)
    requires ';' !in meta && ';' !in dir
    ensures Parse(meta + ";" + dir) ==
      if ParseMeta(meta).Err? then Err(ParseMeta(meta).error) else Err(MissingCommand)
  {
    SplitConcat(meta, ';', dir);
    SplitNoSep(meta, ';');
    SplitNoSep(dir, ';');
  }

  /** A record without `;` has no directory; the meta field is still checked first. */
  lemma ParseWithoutDirectory(meta: string)
    requires ';' !in meta
    ensures Parse(meta) ==
      if ParseMeta(meta).Err? then Err(ParseMeta(meta).error) else Err(MissingDirectory)
  {
    SplitNoSep(meta, ';');
  }

  /**
   * Whatever parses is a meta field without `;`, a `;`, the directory (which
   * holds no `;`), a `;`, and the command: nothing is trimmed or lost.
   */
  lemma ParsedShape(s: string)
    requires Parse(s).Ok?
    ensures var e := Parse(s).value;
      var m := |s| - |e.directory| - |e.command| - 2;
      0 <= m && ';' !in s[..m] && ';' !in e.directory &&
      s == s[..m] + ";" + e.directory + ";" + e.command &&
      ParseMeta(s[..m]) == Ok((e.timestamp, e.duration))
  {
    var fields := SplitN(s, ';', 3);
    SplitN3Pieces(s, ';');
    assert s[..|fields[0]|] == fields[0];
  }

  /** Formatting an entry and parsing it back gives the entry. */
  lemma FormatRoundTrip(marker: string, e: HistoryEntry)
    requires ':' !in marker && ';' !in marker && ';' !in e.directory
    ensures Parse(Format(marker, e)) == Ok(e)
  {
    var ts := Decimal(e.timestamp);
    var dur := Decimal(e.duration);
    var meta := marker + ":" + ts + ":" + dur;
    assert Format(marker, e) == meta + ";" + e.directory + ";" + e.command;
    assert ':' !in ts && ';' !in ts by { DigitsFree(ts); }
    assert ':' !in dur && ';' !in dur by { DigitsFree(dur); }
    ParseFields(meta, e.directory, e.command);
    MetaThreeSubfields(marker, ts, dur);
    DigitsTrimmed(ts);
    DigitsTrimmed(dur);
    DecimalRoundTrip(e.timestamp);
    DecimalRoundTrip(e.duration);
  }

  lemma DigitsFree(d: string)
    requires AllDigits(d)
    ensures ':' !in d && ';' !in d
  {
    forall k | 0 <= k < |d|
      ensures d[k] != ':' && d[k] != ';'
    {
      assert IsDigit(d[k]);
    }
  }

  lemma DigitsTrimmed(d: string)
    requires AllDigits(d) && d != []
    ensures Trim(d) == d
  {
    assert IsDigit(d[0]) && IsDigit(d[|d| - 1]);
    TrimSpec([], d, []);
    assert [] + d + [] == d;
  }

  /* --------------------------------------------------------------- examples */

  /** A meta field without a duration subfield gives duration 0. */
  lemma ExampleMetaNoDuration()
    ensures ParseMeta(": 1") == Ok((1, 0))
  {
    assert Trim(" 1") == "1" by {
      TrimSpec(" ", "1", "");
      assert " " + "1" + "" == " 1";
    }
    assert ParseU64("1") == Some(1) by {
      assert Decimal(1) == "1";
      DecimalRoundTrip(1);
    }
    assert ": 1" == "" + ":" + " 1";
    MetaTwoSubfields("", " 1");
  }

  /** A record without a duration subfield parses with duration 0. */
  lemma ExampleNoDuration()
    ensures Parse(": 1;/a;ls") == Ok(HistoryEntry(1, 0, "/a", "ls"))
  {
    ExampleMetaNoDuration();
    assert ": 1;/a;ls" == ": 1" + ";" + "/a" + ";" + "ls";
    ParseFields(": 1", "/a", "ls");
  }

  /** A meta field with four subfields is rejected. */
  lemma ExampleFourSubfields()
    ensures Parse(": 1:2:3;/a;ls") == Err(TooManyMetaFields)
  {
    assert ": 1:2:3;/a;ls" == ": 1:2:3" + ";" + "/a" + ";" + "ls";
    ParseFields(": 1:2:3", "/a", "ls");
    assert ": 1:2:3" == "" + ":" + " 1" + ":" + "2" + ":" + "3";
    MetaTooManySubfields("", " 1", "2", "3");
  }
}
