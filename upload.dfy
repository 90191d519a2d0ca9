/** The parsing done by the `/upload` handler once the uploaded combat log has
    been read: take the second line of the file, check that it is there and
    has at least ten comma-separated fields, and extract the timestamp
    (field 0), the player (field 8) and the boss (field 9), each trimmed.
    Also the extension kept from the uploaded file's name. */
module UploadLog {
  import opened Strings
  import opened Lines

  /** Why a log is refused; the handler answers each with HTTP 400. */
  datatype ParseError =
    | MissingSecondLine   // no second line, or an empty one
    | MalformedLogLine    // the second line has fewer than ten fields

  datatype Result<T> = Ok(value: T) | Err(error: ParseError)

  /** The three fields the handler keeps from the second line. */
  datatype LogRecord = LogRecord(timestamp: string, player: string, boss: string)

  /** Fields the second line must have, and where the kept ones are. */
  const MinFields: nat := 10
  const TimestampField: nat := 0
  const PlayerField: nat := 8
  const BossField: nat := 9

  /** A field value as the handler keeps it: trimmed, so with no space at
      either end, and free of the separator it was cut out with. */
  predicate IsCleanField(f: string) {
    NoEdgeSpace(f) && ',' !in f
  }

  predicate IsCleanRecord(rec: LogRecord) {
    IsCleanField(rec.timestamp) && IsCleanField(rec.player) && IsCleanField(rec.boss)
  }

  /** Splitting the (present, non-empty) second line on commas, refusing it
      with fewer than ten fields and keeping fields 0, 8 and 9, trimmed. */
  function ParseFields(line: string): (r: Result<LogRecord>)
    ensures r.Err? <==> Occurrences(line, ',') < MinFields - 1
    ensures r.Err? ==> r.error == MalformedLogLine
    ensures r.Ok? ==> IsCleanRecord(r.value)
  {
    var parts := Split(line, ',');
    if |parts| < MinFields then Err(MalformedLogLine)
    else
      TrimKeepsAbsent(parts[TimestampField], ',');
      TrimKeepsAbsent(parts[PlayerField], ',');
      TrimKeepsAbsent(parts[BossField], ',');
      Ok(LogRecord(Trim(parts[TimestampField]), Trim(parts[PlayerField]), Trim(parts[BossField])))
  }

  /** The handler's test of the second line: an empty line is refused just
      like a missing one, before its fields are looked at. */
  function ParseSecondLine(line: string): (r: Result<LogRecord>)
    ensures r == Err(MissingSecondLine) <==> line == ""
    ensures r == Err(MalformedLogLine) <==> line != "" && Occurrences(line, ',') < MinFields - 1
    ensures r.Ok? ==> IsCleanRecord(r.value)
  {
    if line == "" then Err(MissingSecondLine) else ParseFields(line)
  }

  /** The whole parse of an uploaded log's text. The second line is refused
      when it is absent or empty; only then is its field count checked. */
  function ParseLog(content: string): (r: Result<LogRecord>)
    ensures r == Err(MissingSecondLine)
      <==> Occurrences(content, '\n') == 0 || SplitLines(content)[1] == ""
    ensures r == Err(MalformedLogLine)
      <==> Occurrences(content, '\n') > 0 && SplitLines(content)[1] != ""
           && Occurrences(SplitLines(content)[1], ',') < MinFields - 1
    ensures r.Ok? ==> IsCleanRecord(r.value)
  {
    var lines := SplitLines(content);
    if |lines| < 2 then Err(MissingSecondLine) else ParseSecondLine(lines[1])
  }

  /** The extension kept from the uploaded file's name: the one found in the
      name, or ".txt" when the name has none. The result is never empty, so the
      default applies at most once. */
  function UploadExtension(extname: string): (ext: string)
    ensures ext != ""
    ensures extname != "" ==> ext == extname
    ensures extname == "" ==> ext == ".txt"
  {
    if extname == "" then ".txt" else extname
  }

  // ---------------------------------------------------------------------------
  // Properties of the parse.
  // ---------------------------------------------------------------------------

  /** A log without any line feed has no second line. */
  lemma NoLineFeedIsMissingSecondLine(content: string)
    requires '\n' !in content
    ensures ParseLog(content) == Err(MissingSecondLine)
  {
    OccurrencesAbsent(content, '\n');
  }

  /** Only the second line matters: whatever the first line is, a last line
      is parsed as it stands (a lone carriage return included). */
  lemma LastLineDecides(first: string, line: string)
    requires '\n' !in first && '\n' !in line
    ensures ParseLog(first + "\n" + line) == ParseSecondLine(line)
  {
    SecondLineLast(first, line);
  }

  /** Only the second line matters: whatever surrounds it, a second line
      ended by "\r\n" is parsed without that line break. */
  lemma CrLfLineDecides(first: string, line: string, rest: string)
    requires '\n' !in first && '\n' !in line
    ensures ParseLog(first + "\n" + line + "\r\n" + rest) == ParseSecondLine(line)
  {
    SecondLineCrLf(first, line, rest);
  }

  /** Only the second line matters: whatever surrounds it, a second line
      ended by "\n" is parsed without a carriage return just before that
      line feed. */
  lemma LfLineDecides(first: string, line: string, rest: string)
    requires '\n' !in first && '\n' !in line
    ensures ParseLog(first + "\n" + line + "\n" + rest) == ParseSecondLine(DropCr(line))
  {
    SecondLineLf(first, line, rest);
  }

  /** An empty second line is refused as missing, not as malformed, whichever
      line break surrounds it ("a\n", "a\n\nb", "a\r\n\r\nb", ...). */
  lemma EmptySecondLineIsMissing(first: string, rest: string)
    requires '\n' !in first
    ensures ParseLog(first + "\n") == Err(MissingSecondLine)
    ensures ParseLog(first + "\n\n" + rest) == Err(MissingSecondLine)
    ensures ParseLog(first + "\n\r\n" + rest) == Err(MissingSecondLine)
    ensures ParseLog(first + "\r\n\r\n" + rest) == Err(MissingSecondLine)
  {
    LastLineDecides(first, "");
    assert first + "\n" + "" == first + "\n";
    LfLineDecides(first, "", rest);
    assert first + "\n" + "" + "\n" + rest == first + "\n\n" + rest;
    CrLfLineDecides(first, "", rest);
    assert first + "\n" + "" + "\r\n" + rest == first + "\n\r\n" + rest;
    CrLfLineDecides(first + "\r", "", rest);
    assert (first + "\r") + "\n" + "" + "\r\n" + rest == first + "\r\n\r\n" + rest;
  }

  /** A second line made of ten or more comma-free fields gives fields 0, 8
      and 9, trimmed. */
  lemma FieldsDecide(fields: seq<string>)
    requires |fields| >= MinFields
    requires forall i :: 0 <= i < |fields| ==> ',' !in fields[i]
    ensures ParseSecondLine(Join(fields, ','))
      == Ok(LogRecord(Trim(fields[TimestampField]), Trim(fields[PlayerField]), Trim(fields[BossField])))
  {
    SplitJoin(fields, ',');
  }

  /** A second line of one to nine fields is refused as malformed. */
  lemma TooFewFieldsIsMalformed(fields: seq<string>)
    requires 0 < |fields| < MinFields
    requires forall i :: 0 <= i < |fields| ==> ',' !in fields[i]
    ensures ParseFields(Join(fields, ',')) == Err(MalformedLogLine)
    ensures |fields| > 1 ==> ParseSecondLine(Join(fields, ',')) == Err(MalformedLogLine)
  {
    SplitJoin(fields, ',');
  }

  /** Fields 1 to 7, and all fields past field 9, have no effect on the result. */
  lemma OtherFieldsIgnored(fields: seq<string>, others: seq<string>)
    requires |fields| >= MinFields && |others| >= MinFields
    requires forall i :: 0 <= i < |fields| ==> ',' !in fields[i]
    requires forall i :: 0 <= i < |others| ==> ',' !in others[i]
    requires fields[TimestampField] == others[TimestampField]
    requires fields[PlayerField] == others[PlayerField]
    requires fields[BossField] == others[BossField]
    ensures ParseSecondLine(Join(fields, ',')) == ParseSecondLine(Join(others, ','))
  {
    FieldsDecide(fields);
    FieldsDecide(others);
  }

  /** Spaces around the player's or the boss's name do not reach the result:
      a field " Tipeuz " gives the name "Tipeuz". */
  lemma PaddedNamesAreTrimmed(fields: seq<string>, pre: string, name: string, post: string)
    requires |fields| >= MinFields
    requires forall i :: 0 <= i < |fields| ==> ',' !in fields[i]
    requires AllSpace(pre) && AllSpace(post) && NoEdgeSpace(name)
    requires ',' !in pre + name + post
    ensures var r := ParseSecondLine(Join(fields[PlayerField := pre + name + post], ','));
      r.Ok? && r.value.player == name
    ensures var r := ParseSecondLine(Join(fields[BossField := pre + name + post], ','));
      r.Ok? && r.value.boss == name
  {
    var padded := pre + name + post;
    TrimExact(pre, name, post);
    FieldsDecide(fields[PlayerField := padded]);
    FieldsDecide(fields[BossField := padded]);
  }

  /** The kept fields are already trimmed: trimming them again changes nothing. */
  lemma ParsedFieldsAreTrimmed(content: string)
    requires ParseLog(content).Ok?
    ensures var rec := ParseLog(content).value;
      Trim(rec.timestamp) == rec.timestamp && Trim(rec.player) == rec.player && Trim(rec.boss) == rec.boss
  {
    var rec := ParseLog(content).value;
    TrimNoEdgeSpace(rec.timestamp);
    TrimNoEdgeSpace(rec.player);
    TrimNoEdgeSpace(rec.boss);
  }

  // ---------------------------------------------------------------------------
  // The sample line shown next to the parsing code.
  // ---------------------------------------------------------------------------

  /** Ten fields joined by commas, written out. */
  lemma JoinTen(f0: string, f1: string, f2: string, f3: string, f4: string,
                f5: string, f6: string, f7: string, f8: string, f9: string)
    ensures Join([f0, f1, f2, f3, f4, f5, f6, f7, f8, f9], ',')
      == f0 + "," + f1 + "," + f2 + "," + f3 + "," + f4 + "," + f5 + ","
         + f6 + "," + f7 + "," + f8 + "," + f9
  {
    JoinSnoc([f0], f1, ',');
    assert [f0] + [f1] == [f0, f1];
    JoinSnoc([f0, f1], f2, ',');
    assert [f0, f1] + [f2] == [f0, f1, f2];
    JoinSnoc([f0, f1, f2], f3, ',');
    assert [f0, f1, f2] + [f3] == [f0, f1, f2, f3];
    JoinSnoc([f0, f1, f2, f3], f4, ',');
    assert [f0, f1, f2, f3] + [f4] == [f0, f1, f2, f3, f4];
    JoinSnoc([f0, f1, f2, f3, f4], f5, ',');
    assert [f0, f1, f2, f3, f4] + [f5] == [f0, f1, f2, f3, f4, f5];
    JoinSnoc([f0, f1, f2, f3, f4, f5], f6, ',');
    assert [f0, f1, f2, f3, f4, f5] + [f6] == [f0, f1, f2, f3, f4, f5, f6];
    JoinSnoc([f0, f1, f2, f3, f4, f5, f6], f7, ',');
    assert [f0, f1, f2, f3, f4, f5, f6] + [f7] == [f0, f1, f2, f3, f4, f5, f6, f7];
    JoinSnoc([f0, f1, f2, f3, f4, f5, f6, f7], f8, ',');
    assert [f0, f1, f2, f3, f4, f5, f6, f7] + [f8] == [f0, f1, f2, f3, f4, f5, f6, f7, f8];
    JoinSnoc([f0, f1, f2, f3, f4, f5, f6, f7, f8], f9, ',');
    assert [f0, f1, f2, f3, f4, f5, f6, f7, f8] + [f9] == [f0, f1, f2, f3, f4, f5, f6, f7, f8, f9];
  }

  /** A line written out as ten comma-free fields with commas between them
      gives its fields 0, 8 and 9, trimmed. */
  lemma TenFieldLine(f0: string, f1: string, f2: string, f3: string, f4: string,
                     f5: string, f6: string, f7: string, f8: string, f9: string)
    requires ',' !in f0 && ',' !in f1 && ',' !in f2 && ',' !in f3 && ',' !in f4
    requires ',' !in f5 && ',' !in f6 && ',' !in f7 && ',' !in f8 && ',' !in f9
    ensures ParseSecondLine(f0 + "," + f1 + "," + f2 + "," + f3 + "," + f4 + "," + f5 + ","
                            + f6 + "," + f7 + "," + f8 + "," + f9)
      == Ok(LogRecord(Trim(f0), Trim(f8), Trim(f9)))
  {
    var fields := [f0, f1, f2, f3, f4, f5, f6, f7, f8, f9];
    JoinTen(f0, f1, f2, f3, f4, f5, f6, f7, f8, f9);
    assert forall i :: 0 <= i < |fields| ==> ',' !in fields[i];
    FieldsDecide(fields);
  }

  /** The same, for fields that are already trimmed: they are kept as they are. */
  lemma TrimmedTenFieldLine(f0: string, f1: string, f2: string, f3: string, f4: string,
                            f5: string, f6: string, f7: string, f8: string, f9: string)
    requires ',' !in f0 && ',' !in f1 && ',' !in f2 && ',' !in f3 && ',' !in f4
    requires ',' !in f5 && ',' !in f6 && ',' !in f7 && ',' !in f8 && ',' !in f9
    requires NoEdgeSpace(f0) && NoEdgeSpace(f8) && NoEdgeSpace(f9)
    ensures ParseSecondLine(f0 + "," + f1 + "," + f2 + "," + f3 + "," + f4 + "," + f5 + ","
                            + f6 + "," + f7 + "," + f8 + "," + f9)
      == Ok(LogRecord(f0, f8, f9))
  {
    TenFieldLine(f0, f1, f2, f3, f4, f5, f6, f7, f8, f9);
    TrimNoEdgeSpace(f0);
    TrimNoEdgeSpace(f8);
    TrimNoEdgeSpace(f9);
  }

  /** The sample second line of a combat log, field by field:
      20251213-22:28:09:301,DamageDone,Boule de mana,968862069,116,0,1,kNormalHit,Tipeuz,Calanthia */
  const SampleLine: string :=
    "20251213-22:28:09:301" + "," + "DamageDone" + "," + "Boule de mana" + "," + "968862069" + ","
    + "116" + "," + "0" + "," + "1" + "," + "kNormalHit" + "," + "Tipeuz" + "," + "Calanthia"

  /** The sample line gives its timestamp, its player and its boss. */
  lemma SampleLineFields()
    ensures ParseSecondLine(SampleLine) == Ok(LogRecord("20251213-22:28:09:301", "Tipeuz", "Calanthia"))
  {
    TrimmedTenFieldLine("20251213-22:28:09:301", "DamageDone", "Boule de mana", "968862069",
                        "116", "0", "1", "kNormalHit", "Tipeuz", "Calanthia");
  }

  /** The sample line as the second line of a log, ended by "\r\n", whatever
      comes before and after it. */
  lemma SampleLogParses(first: string, rest: string)
    requires '\n' !in first
    ensures ParseLog(first + "\n" + SampleLine + "\r\n" + rest)
      == Ok(LogRecord("20251213-22:28:09:301", "Tipeuz", "Calanthia"))
  {
    assert '\n' !in SampleLine;
    CrLfLineDecides(first, SampleLine, rest);
    SampleLineFields();
  }
}
