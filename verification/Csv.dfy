/** The CSV export of the watcher's audit log: src/watcher/mod.rs, export_watcher_audit_log. */
module Csv {
  import opened Outcomes
  import opened Text

  datatype AuditEntry = AuditEntry(
    timestamp: string,
    originalFile: string,
    relativePath: string,
    encryptedFile: string,
    fileSize: nat,
    shredApplied: bool,
    sha256Hash: string
  )

  const TITLES: seq<string> :=
    ["Timestamp", "Original_File", "Relative_Path", "Encrypted_File", "Size_Bytes", "Shred_Applied", "SHA256"]

  /** Every double quote doubled. */
  function DoubleQuotes(s: string): string {
    if s == [] then [] else (if s[0] == '"' then ['"', '"'] else [s[0]]) + DoubleQuotes(s[1..])
  }

  function BoolText(b: bool): string {
    if b then "true" else "false"
  }

  /** A quoted field. */
  function Quoted(s: string): string {
    ['"'] + s + ['"']
  }

  /** Pieces with commas between them and a line end after the last. */
  function Joined(pieces: seq<string>): string
    requires pieces != []
  {
    if |pieces| == 1 then pieces[0] + "\n" else pieces[0] + "," + Joined(pieces[1..])
  }

  function Heading(): string {
    Joined(TITLES)
  }

  /** The escaped columns of an entry. */
  function Columns(e: AuditEntry): seq<string> {
    [Quoted(DoubleQuotes(e.timestamp)), Quoted(DoubleQuotes(e.originalFile)),
     Quoted(DoubleQuotes(e.relativePath)), Quoted(DoubleQuotes(e.encryptedFile)),
     Decimal(e.fileSize), BoolText(e.shredApplied)]
  }

  /** The line for an entry. The hash is quoted without escaping. */
  function Line(e: AuditEntry): string {
    Joined(Columns(e) + [Quoted(e.sha256Hash)])
  }

  function Lines(log: seq<AuditEntry>): string {
    if log == [] then [] else Line(log[0]) + Lines(log[1..])
  }

  /** Appends a line for each entry to the heading. The hash field is not escaped. */
  method ExportCsv(log: seq<AuditEntry>) returns (out: string)
    ensures out == Heading() + Lines(log)
  {
    hide Line;
    out := Heading();
    var i := 0;
    while i < |log|
      invariant i <= |log|
      invariant out + Lines(log[i..]) == Heading() + Lines(log)
    {
      assert Lines(log[i..]) == Line(log[i]) + Lines(log[i + 1..]);
      LinesFollow(out, Line(log[i]), Lines(log[i + 1..]));
      out := out + Line(log[i]);
      i := i + 1;
    }
  }

  lemma LinesFollow(out: string, line: string, more: string)
    ensures out + (line + more) == (out + line) + more
  {
  }

  // A reader for the format of section 2 of RFC 4180, with LF line ends.

  type Read<T> = Option<(T, string)>

  /** The rest of a quoted field, up to its closing quote. A doubled quote stands for one. */
  function ReadQuoted(s: string): (r: Read<string>)
    ensures r.Some? ==> |r.value.1| < |s|
    decreases |s|
  {
    if s == [] then None
    else if s[0] != '"' then
      match ReadQuoted(s[1..])
      case None => None
      case Some((text, rest)) => Some(([s[0]] + text, rest))
    else if |s| > 1 && s[1] == '"' then
      match ReadQuoted(s[2..])
      case None => None
      case Some((text, rest)) => Some((['"'] + text, rest))
    else Some(([], s[1..]))
  }

  /** An unquoted field, up to a comma, a line end or the end of the text. */
  function ReadBare(s: string): (r: Read<string>)
    ensures r.Some? ==> |r.value.1| <= |s|
  {
    if s == [] || s[0] == ',' || s[0] == '\n' then Some(([], s))
    else if s[0] == '"' then None
    else
      match ReadBare(s[1..])
      case None => None
      case Some((text, rest)) => Some(([s[0]] + text, rest))
  }

  function ReadField(s: string): (r: Read<string>)
    ensures r.Some? ==> |r.value.1| <= |s|
  {
    if s != [] && s[0] == '"' then ReadQuoted(s[1..]) else ReadBare(s)
  }

  /** The fields of one record, through its line end. */
  function ReadRecord(s: string): (r: Read<seq<string>>)
    ensures r.Some? ==> r.value.0 != []
    ensures r.Some? && s != [] ==> |r.value.1| < |s|
    decreases |s|
  {
    match ReadField(s)
    case None => None
    case Some((field, rest)) =>
      if rest == [] then Some(([field], []))
      else if rest[0] == '\n' then Some(([field], rest[1..]))
      else if rest[0] == ',' then
        match ReadRecord(rest[1..])
        case None => None
        case Some((fields, rest')) => Some(([field] + fields, rest'))
      else None
  }

  function ReadRecords(s: string): Option<seq<seq<string>>>
    decreases |s|
  {
    if s == [] then Some([])
    else match ReadRecord(s)
      case None => None
      case Some((record, rest)) =>
        match ReadRecords(rest)
        case None => None
        case Some(records) => Some([record] + records)
  }

  /** The fields of an entry, as text. */
  function FieldsOf(e: AuditEntry): seq<string> {
    [e.timestamp, e.originalFile, e.relativePath, e.encryptedFile, Decimal(e.fileSize), BoolText(e.shredApplied),
      e.sha256Hash]
  }

  function EntryOf(fields: seq<string>): Option<AuditEntry> {
    if |fields| != 7 || ParseDecimal(fields[4]).None? || (fields[5] != "true" && fields[5] != "false") then None
    else Some(AuditEntry(fields[0], fields[1], fields[2], fields[3], ParseDecimal(fields[4]).value,
                         fields[5] == "true", fields[6]))
  }

  function EntriesOf(records: seq<seq<string>>): Option<seq<AuditEntry>> {
    if records == [] then Some([])
    else match (EntryOf(records[0]), EntriesOf(records[1..]))
      case (Some(e), Some(es)) => Some([e] + es)
      case _ => None
  }

  /** An exported log read back. */
  function ReadLog(text: string): Option<seq<AuditEntry>> {
    match ReadRecords(text)
    case None => None
    case Some(records) => if records == [] || records[0] != TITLES then None else EntriesOf(records[1..])
  }

  // Reading undoes exporting.

  lemma {:induction false} QuotedReads(t: string, rest: string)
    requires rest == [] || rest[0] != '"'
    ensures ReadQuoted(DoubleQuotes(t) + ['"'] + rest) == Some((t, rest))
  {
    var s := DoubleQuotes(t) + ['"'] + rest;
    if t == [] {
      assert s[1..] == rest;
    } else {
      QuotedReads(t[1..], rest);
      var later := DoubleQuotes(t[1..]) + ['"'] + rest;
      if t[0] == '"' {
        assert s[2..] == later;
      } else {
        assert s[1..] == later;
      }
      assert [t[0]] + t[1..] == t;
    }
  }

  predicate Plain(s: string) {
    forall i :: 0 <= i < |s| ==> s[i] != '"' && s[i] != ',' && s[i] != '\n'
  }

  lemma {:induction false} BareReads(t: string, rest: string)
    requires Plain(t)
    requires rest != [] && (rest[0] == ',' || rest[0] == '\n')
    ensures ReadBare(t + rest) == Some((t, rest))
  {
    if t == [] {
      assert t + rest == rest;
    } else {
      BareReads(t[1..], rest);
      assert (t + rest)[1..] == t[1..] + rest;
      assert [t[0]] + t[1..] == t;
    }
  }

  lemma {:induction false} NothingToDouble(t: string)
    requires '"' !in t
    ensures DoubleQuotes(t) == t
  {
    if t != [] {
      NothingToDouble(t[1..]);
    }
  }

  /** A piece of a line stands for a field if it is the field quoted, or the field itself when it needs no quotes. */
  predicate Renders(piece: string, field: string) {
    piece == Quoted(DoubleQuotes(field)) || (piece == field && Plain(field))
  }

  lemma FieldReads(piece: string, field: string, rest: string)
    requires Renders(piece, field)
    requires rest != [] && (rest[0] == ',' || rest[0] == '\n')
    ensures ReadField(piece + rest) == Some((field, rest))
  {
    var s := piece + rest;
    if piece == Quoted(DoubleQuotes(field)) {
      QuotedReads(field, rest);
      assert s[1..] == DoubleQuotes(field) + ['"'] + rest;
    } else {
      BareReads(field, rest);
      assert s[0] == if field == [] then rest[0] else field[0];
    }
  }

  lemma {:induction false} JoinedReads(pieces: seq<string>, fields: seq<string>, rest: string)
    requires 0 < |pieces| == |fields|
    requires forall i :: 0 <= i < |pieces| ==> Renders(pieces[i], fields[i])
    ensures ReadRecord(Joined(pieces) + rest) == Some((fields, rest))
    decreases |pieces|
  {
    hide ReadField, Renders;
    if |pieces| == 1 {
      FieldReads(pieces[0], fields[0], "\n" + rest);
      assert Joined(pieces) + rest == pieces[0] + ("\n" + rest);
      assert ("\n" + rest)[1..] == rest;
      assert fields == [fields[0]];
    } else {
      var more := Joined(pieces[1..]) + rest;
      FieldReads(pieces[0], fields[0], "," + more);
      assert Joined(pieces) + rest == pieces[0] + ("," + more);
      assert ("," + more)[1..] == more;
      JoinedReads(pieces[1..], fields[1..], rest);
      assert [fields[0]] + fields[1..] == fields;
    }
  }

  lemma LineReads(e: AuditEntry, rest: string)
    requires '"' !in e.sha256Hash
    ensures ReadRecord(Line(e) + rest) == Some((FieldsOf(e), rest))
  {
    hide ReadRecord, Joined, DoubleQuotes, Decimal;
    NothingToDouble(e.sha256Hash);
    JoinedReads(Columns(e) + [Quoted(e.sha256Hash)], FieldsOf(e), rest);
  }

  lemma EntryReads(e: AuditEntry)
    ensures EntryOf(FieldsOf(e)) == Some(e)
  {
    DecimalParses(e.fileSize);
  }

  lemma {:induction false} LinesRead(log: seq<AuditEntry>)
    requires forall e :: e in log ==> '"' !in e.sha256Hash
    ensures ReadRecords(Lines(log)).Some? && EntriesOf(ReadRecords(Lines(log)).value) == Some(log)
    decreases |log|
  {
    hide Line, ReadRecord, FieldsOf, EntryOf;
    if log != [] {
      LineReads(log[0], Lines(log[1..]));
      EntryReads(log[0]);
      LinesRead(log[1..]);
      var records := ReadRecords(Lines(log)).value;
      assert Lines(log) != [] by { LineIsNotEmpty(log[0]); }
      assert records == [FieldsOf(log[0])] + ReadRecords(Lines(log[1..])).value;
      assert [log[0]] + log[1..] == log;
    }
  }

  lemma LineIsNotEmpty(e: AuditEntry)
    ensures Line(e) != []
  {
  }

  lemma HeadingReads(rest: string)
    ensures ReadRecord(Heading() + rest) == Some((TITLES, rest))
  {
    hide ReadRecord, Joined, Renders;
    forall i | 0 <= i < |TITLES|
      ensures Renders(TITLES[i], TITLES[i])
    {
      PlainTitle(i);
    }
    JoinedReads(TITLES, TITLES, rest);
  }

  lemma PlainTitle(i: nat)
    requires i < |TITLES|
    ensures Renders(TITLES[i], TITLES[i])
  {
    hide DoubleQuotes, Quoted;
  }

  lemma JoinedIsNotEmpty(pieces: seq<string>)
    requires pieces != []
    ensures Joined(pieces) != []
  {
  }

  /** An exported log reads back to exactly its entries, whatever quotes, commas and line ends their names hold. */
  lemma ExportReads(log: seq<AuditEntry>)
    requires forall e :: e in log ==> '"' !in e.sha256Hash
    ensures ReadLog(Heading() + Lines(log)) == Some(log)
  {
    hide Line, ReadRecord, FieldsOf, EntryOf;
    HeadingReads(Lines(log));
    JoinedIsNotEmpty(TITLES);
    LinesRead(log);
    var records := ReadRecords(Heading() + Lines(log)).value;
    assert records == [TITLES] + ReadRecords(Lines(log)).value;
  }

  // The unescaped hash field: a quote in it is never read back.

  function QuoteRun(n: nat): (s: string)
    ensures |s| == n && forall i :: 0 <= i < n ==> s[i] == '"'
  {
    seq(n, i => '"')
  }

  lemma ConsPrefix(c: char, a: string, b: string)
    ensures [c] + a <= [c] + b <==> a <= b
  {
    assert ([c] + a)[1..] == a && ([c] + b)[1..] == b;
    if [c] + a <= [c] + b {
      assert b[..|a|] == ([c] + b)[..|a| + 1][1..];
    }
  }

  /** A closed field never reads as its own escaped form shifted behind further quotes. */
  lemma {:induction false} NoShiftedEscape(x: string, n: nat, more: string)
    requires n > 0
    ensures !(QuoteRun(n) + DoubleQuotes(x) + ['"'] <= x + ['"', '\n'] + more)
    decreases |x|
  {
    var a, b := QuoteRun(n) + DoubleQuotes(x) + ['"'], x + ['"', '\n'] + more;
    if x == [] {
      assert a[1] == '"' && b[1] == '\n';
    } else if a <= b {
      assert x[0] == b[0] == a[0] == '"';
      var a', b' := QuoteRun(n + 1) + DoubleQuotes(x[1..]) + ['"'], x[1..] + ['"', '\n'] + more;
      assert QuoteRun(n) + ['"', '"'] == ['"'] + QuoteRun(n + 1);
      assert a == ['"'] + a' && b == ['"'] + b';
      ConsPrefix('"', a', b');
      NoShiftedEscape(x[1..], n + 1, more);
    }
  }

  /** What reading a quoted field consumes is that field escaped, and the closing quote. */
  lemma {:induction false} ReadsQuoted(s: string)
    requires ReadQuoted(s).Some?
    ensures DoubleQuotes(ReadQuoted(s).value.0) + ['"'] <= s
    decreases |s|
  {
    if s[0] != '"' {
      ReadsQuoted(s[1..]);
    } else if |s| > 1 && s[1] == '"' {
      ReadsQuoted(s[2..]);
    }
  }

  lemma {:induction false} SelfReadingHasNoQuotes(x: string, more: string)
    requires DoubleQuotes(x) + ['"'] <= x + ['"', '\n'] + more
    ensures '"' !in x
    decreases |x|
  {
    if x != [] {
      var a, b := DoubleQuotes(x[1..]) + ['"'], x[1..] + ['"', '\n'] + more;
      assert x + ['"', '\n'] + more == [x[0]] + b;
      if x[0] == '"' {
        var shifted := QuoteRun(1) + DoubleQuotes(x[1..]) + ['"'];
        assert DoubleQuotes(x) + ['"'] == ['"'] + shifted;
        ConsPrefix('"', shifted, b);
        NoShiftedEscape(x[1..], 1, more);
      } else {
        assert DoubleQuotes(x) + ['"'] == [x[0]] + a;
        ConsPrefix(x[0], a, b);
        SelfReadingHasNoQuotes(x[1..], more);
        assert x == [x[0]] + x[1..];
      }
    }
  }

  lemma HashReadsOnlyPlain(hash: string, more: string)
    requires '"' in hash
    ensures var r := ReadRecord(Quoted(hash) + "\n" + more);
            r.None? || r.value.0[0] != hash
  {
    var s := Quoted(hash) + "\n" + more;
    assert s[1..] == hash + ['"', '\n'] + more;
    if ReadQuoted(s[1..]).Some? && ReadQuoted(s[1..]).value.0 == hash {
      ReadsQuoted(s[1..]);
      SelfReadingHasNoQuotes(hash, more);
    }
  }

  /** The fields before the last do not depend on how the last is read. */
  lemma {:induction false} LastPieceDecides(pieces: seq<string>, fields: seq<string>, last: string, more: string)
    requires |pieces| == |fields|
    requires forall i :: 0 <= i < |pieces| ==> Renders(pieces[i], fields[i])
    ensures ReadRecord(Joined(pieces + [last]) + more)
         == match ReadRecord(last + "\n" + more)
            case None => None
            case Some(r) => Some((fields + r.0, r.1))
    decreases |pieces|
  {
    hide ReadField, Renders;
    var all := pieces + [last];
    if pieces == [] {
      assert all == [last] && forall r: seq<string> :: fields + r == r;
    } else {
      assert all[1..] == pieces[1..] + [last];
      var later := Joined(all[1..]) + more;
      FieldReads(pieces[0], fields[0], "," + later);
      assert Joined(all) + more == pieces[0] + ("," + later);
      assert ("," + later)[1..] == later;
      LastPieceDecides(pieces[1..], fields[1..], last, more);
      assert forall r: seq<string> :: [fields[0]] + (fields[1..] + r) == fields + r;
    }
  }

  lemma QuotedHashLineFails(e: AuditEntry, more: string)
    requires '"' in e.sha256Hash
    ensures var r := ReadRecord(Line(e) + more);
            r.None? || EntryOf(r.value.0) != Some(e)
  {
    hide ReadRecord, Joined, DoubleQuotes, Decimal;
    LastPieceDecides(Columns(e), FieldsOf(e)[..6], Quoted(e.sha256Hash), more);
    HashReadsOnlyPlain(e.sha256Hash, more);
    var r := ReadRecord(Line(e) + more);
    assert r.Some? ==> r.value.0[6] != e.sha256Hash;
  }

  /** Exactly the logs without quotes in their hashes read back, since that field alone is not escaped. */
  lemma {:induction false} LinesReadExactly(log: seq<AuditEntry>)
    ensures var r := ReadRecords(Lines(log));
            r.Some? && EntriesOf(r.value) == Some(log) <==> forall e :: e in log ==> '"' !in e.sha256Hash
    decreases |log|
  {
    hide Line, ReadRecord, FieldsOf, EntryOf;
    if forall e :: e in log ==> '"' !in e.sha256Hash {
      LinesRead(log);
    } else {
      var more := Lines(log[1..]);
      LineIsNotEmpty(log[0]);
      if '"' in log[0].sha256Hash {
        QuotedHashLineFails(log[0], more);
      } else {
        LineReads(log[0], more);
        EntryReads(log[0]);
        LinesReadExactly(log[1..]);
        assert log == [log[0]] + log[1..];
      }
    }
  }

  lemma ExportReadsExactly(log: seq<AuditEntry>)
    ensures ReadLog(Heading() + Lines(log)) == Some(log) <==> forall e :: e in log ==> '"' !in e.sha256Hash
  {
    hide Line, ReadRecord, FieldsOf, EntryOf;
    HeadingReads(Lines(log));
    JoinedIsNotEmpty(TITLES);
    LinesReadExactly(log);
    if ReadRecords(Lines(log)).Some? {
      assert ReadRecords(Heading() + Lines(log)).value == [TITLES] + ReadRecords(Lines(log)).value;
    }
  }

  // The text itself.

  lemma HeadingIs()
    ensures Heading() == ("Timestamp" + ",") + (("Original_File" + ",") + (("Relative_Path" + ",") + SecondPart(
                           "Encrypted_File", "Size_Bytes", "Shred_Applied", "SHA256")))
  {
    hide Joined, SecondPart;
    JoinedSeven(TITLES);
  }

  /** The last four columns of a line. */
  function SecondPart(encrypted: string, size: string, shredded: string, hash: string): string {
    (encrypted + ",") + ((size + ",") + ((shredded + ",") + (hash + "\n")))
  }

  /** The line of an entry whose texts hold no quote, character by character. */
  lemma LineIs(e: AuditEntry)
    requires '"' !in e.timestamp && '"' !in e.originalFile && '"' !in e.relativePath && '"' !in e.encryptedFile
    ensures Line(e) == (InQuotes(e.timestamp) + ",")
            + ((InQuotes(e.originalFile) + ",") + ((InQuotes(e.relativePath) + ",")
                       + SecondPart(InQuotes(e.encryptedFile), Decimal(e.fileSize),
                                    if e.shredApplied then "true" else "false", InQuotes(e.sha256Hash))))
  {
    hide DoubleQuotes, Decimal, Joined, SecondPart;
    NothingToDouble(e.timestamp);
    NothingToDouble(e.originalFile);
    NothingToDouble(e.relativePath);
    NothingToDouble(e.encryptedFile);
    JoinedSeven(Columns(e) + [Quoted(e.sha256Hash)]);
  }

  function InQuotes(s: string): string {
    "\"" + s + "\""
  }

  lemma JoinedSeven(c: seq<string>)
    requires |c| == 7
    ensures Joined(c) == (c[0] + ",") + ((c[1] + ",") + ((c[2] + ",") + SecondPart(c[3], c[4], c[5], c[6])))
  {
    hide Joined, SecondPart;
    JoinedFour(c);
    JoinedUnfolds(c, 2);
    JoinedUnfolds(c, 1);
    JoinedUnfolds(c, 0);
    assert c[0..] == c;
  }

  lemma JoinedFour(c: seq<string>)
    requires |c| == 7
    ensures Joined(c[3..]) == SecondPart(c[3], c[4], c[5], c[6])
  {
    hide Joined;
    JoinedUnfolds(c, 6);
    JoinedUnfolds(c, 5);
    JoinedUnfolds(c, 4);
    JoinedUnfolds(c, 3);
  }

  lemma JoinedUnfolds(c: seq<string>, i: nat)
    requires i < |c|
    ensures Joined(c[i..]) == if i == |c| - 1 then c[i] + "\n" else c[i] + "," + Joined(c[i + 1..])
  {
    assert i < |c| - 1 ==> c[i..][1..] == c[i + 1..];
  }

  /** A quote in a text is doubled, and nothing else changes. */
  lemma {:induction false} QuotesAreDoubled(a: string, b: string)
    requires '"' !in a
    ensures DoubleQuotes(a + b) == a + DoubleQuotes(b)
    ensures DoubleQuotes(['"'] + b) == ['"', '"'] + DoubleQuotes(b)
  {
    assert (['"'] + b)[1..] == b;
    if a == [] {
      assert a + b == b;
    } else {
      QuotesAreDoubled(a[1..], b);
      assert (a + b)[1..] == a[1..] + b;
      assert [a[0]] + (a[1..] + DoubleQuotes(b)) == a + DoubleQuotes(b);
    }
  }
}
