/**
 * Record building in `parseCSV` (boss-tracker-bot.js, lines 26-77): the
 * document is split at every newline, the first line (the header) is
 * skipped, and every other line that is not blank once trimmed is split into
 * fields; a row of at least ten fields becomes one boss record.
 */
module Records {
  import opened Wrappers
  import opened Text
  import CsvLine

  /** `type`: `'fixed'` or `'regular'`. */
  datatype BossType = RegularBoss | FixedBoss

  /** One row of the sheet, as `parseCSV` pushes it. */
  datatype Boss = Boss(
    mapName: string,
    level: int,
    name: string,
    lastKilled: string,
    cooldown: string,
    respawnTime: string,
    note: string,
    bossType: BossType)

  /** A row with fewer fields than this is dropped. */
  const MinFields := 10

  // ---------------------------------------------------------------------
  // `csvText.split('\n')`
  // ---------------------------------------------------------------------

  /** `s.split(sep)` for a one-character separator: there is always one more piece than separators. */
  function SplitOn(s: string, sep: char): (pieces: seq<string>)
    ensures |pieces| >= 1
  {
    if s == [] then [[]]
    else
      var rest := SplitOn(s[1..], sep);
      if s[0] == sep then [[]] + rest else [[s[0]] + rest[0]] + rest[1..]
  }

  /** Joins pieces back with the separator between them. */
  function JoinWith(pieces: seq<string>, sep: char): string
    requires |pieces| >= 1
  {
    if |pieces| == 1 then pieces[0] else pieces[0] + [sep] + JoinWith(pieces[1..], sep)
  }

  /** Splitting loses nothing: joining the pieces with the separator gives the text back, and no piece holds a separator. */
  lemma {:induction false} SplitOnJoin(s: string, sep: char)
    ensures JoinWith(SplitOn(s, sep), sep) == s
    ensures forall k :: 0 <= k < |SplitOn(s, sep)| ==> sep !in SplitOn(s, sep)[k]
  {
    if s != [] {
      var rest := SplitOn(s[1..], sep);
      SplitOnJoin(s[1..], sep);
      if s[0] == sep {
        assert SplitOn(s, sep)[1..] == rest;
      } else {
        var ps := SplitOn(s, sep);
        assert ps[1..] == rest[1..];
        if |rest| > 1 {
          assert JoinWith(rest, sep) == rest[0] + [sep] + JoinWith(rest[1..], sep);
        }
        forall k | 0 <= k < |ps| ensures sep !in ps[k] {
          if k == 0 {
            assert ps[0] == [s[0]] + rest[0];
          } else {
            assert ps[k] == rest[k];
          }
        }
      }
    }
  }

  /** A text without the separator is one piece. */
  lemma {:induction false} SplitOnNone(s: string, sep: char)
    requires sep !in s
    ensures SplitOn(s, sep) == [s]
  {
    if s != [] {
      SplitOnNone(s[1..], sep);
      assert [s[0]] + s[1..] == s;
    }
  }

  /** The first piece ends at the first separator. */
  lemma {:induction false} SplitOnFirst(h: string, sep: char, rest: string)
    requires sep !in h
    ensures SplitOn(h + [sep] + rest, sep) == [h] + SplitOn(rest, sep)
  {
    var s := h + [sep] + rest;
    if h == [] {
      assert s[1..] == rest;
    } else {
      assert s[1..] == h[1..] + [sep] + rest;
      SplitOnFirst(h[1..], sep, rest);
      assert [h[0]] + h[1..] == h;
    }
  }

  // ---------------------------------------------------------------------
  // One row to one record
  // ---------------------------------------------------------------------

  /** `a && b ? `${a} ${b}` : a || ''`: the date and the time, when both are there. */
  function JoinDateTime(date: string, time: string): string {
    if date != [] && time != [] then date + " " + time else date
  }

  /** `parseInt(v) || 0`: a text without a leading integer gives 0. */
  function LevelOf(v: string): int {
    match ParseInt(v)
    case Some(n) => n
    case None => 0
  }

  /** The record `parseCSV` pushes for a row of at least ten fields. */
  function MakeBoss(values: seq<string>): Boss
    requires |values| >= MinFields
  {
    Boss(
      mapName := values[0],
      level := LevelOf(values[1]),
      name := values[2],
      lastKilled := JoinDateTime(values[3], values[4]),
      cooldown := values[5],
      respawnTime := JoinDateTime(values[6], values[7]),
      note := values[9],
      bossType := if values[3] == "Fixed" then FixedBoss else RegularBoss)
  }

  /** A data line: not blank once trimmed, and at least ten fields. */
  predicate IsDataLine(line: string) {
    var t := Trim(line);
    t != [] && |CsvLine.SplitLine(t)| >= MinFields
  }

  /** What one line (not the header) contributes: nothing, or one record. */
  function RowRecords(line: string): seq<Boss> {
    if IsDataLine(line) then [MakeBoss(CsvLine.SplitLine(Trim(line)))] else []
  }

  /** The records of a sequence of data lines, in line order. */
  function Collect(lines: seq<string>): seq<Boss> {
    if lines == [] then []
    else Collect(lines[..|lines| - 1]) + RowRecords(lines[|lines| - 1])
  }

  /** `parseCSV(csvText)` as a value: every line but the first contributes its records. */
  function Records(csvText: string): seq<Boss> {
    Collect(SplitOn(csvText, '\n')[1..])
  }

  /** The loop of lines 31-74, appending to `result` as the source does. */
  method ParseCSV(csvText: string) returns (result: seq<Boss>)
    ensures result == Records(csvText)
    ensures |result| < |SplitOn(csvText, '\n')|
  {
    var lines := SplitOn(csvText, '\n');
    result := [];
    for i := 1 to |lines|
      invariant result == Collect(lines[1..i])
    {
      assert lines[1..i + 1][..i - 1] == lines[1..i];
      assert Collect(lines[1..i + 1]) == Collect(lines[1..i]) + RowRecords(lines[i]);
      var line := Trim(lines[i]);
      if line != [] {
        var values := CsvLine.ParseLine(line);
        if |values| >= MinFields {
          result := result + [MakeBoss(values)];
        } else {
          assert RowRecords(lines[i]) == [];
        }
      } else {
        assert RowRecords(lines[i]) == [];
      }
    }
    assert lines[1..|lines|] == lines[1..];
    CollectLength(lines[1..]);
  }

  // ---------------------------------------------------------------------
  // What ingestion promises
  // ---------------------------------------------------------------------

  /** Records come out in line order: collecting two runs of lines is collecting each. */
  lemma {:induction false} CollectAppend(a: seq<string>, b: seq<string>)
    ensures Collect(a + b) == Collect(a) + Collect(b)
  {
    if b != [] {
      var b' := b[..|b| - 1];
      assert (a + b)[..|a + b| - 1] == a + b';
      CollectAppend(a, b');
    } else {
      assert a + b == a;
    }
  }

  /**
   * A line contributes on its own, between the records of the lines before
   * and after it: nothing when it is blank once trimmed or has fewer than ten
   * fields, and otherwise exactly the record built from its fields.
   */
  lemma RowContribution(before: seq<string>, line: string, after: seq<string>)
    ensures !IsDataLine(line) ==>
      Collect(before + [line] + after) == Collect(before) + Collect(after)
    ensures IsDataLine(line) ==>
      Collect(before + [line] + after) == Collect(before) + [MakeBoss(CsvLine.SplitLine(Trim(line)))] + Collect(after)
  {
    CollectAround(before, line, after);
    if !IsDataLine(line) {
      assert RowRecords(line) == [];
    }
  }

  lemma CollectAround(before: seq<string>, line: string, after: seq<string>)
    ensures Collect(before + [line] + after) == Collect(before) + RowRecords(line) + Collect(after)
  {
    CollectAppend(before + [line], after);
    CollectAppend(before, [line]);
    assert [line][..0] == [];
  }

  /** Each line gives at most one record. */
  lemma {:induction false} CollectLength(lines: seq<string>)
    ensures |Collect(lines)| <= |lines|
  {
    if lines != [] {
      CollectLength(lines[..|lines| - 1]);
    }
  }

  /** Every record comes from a data line with at least ten fields, mapped column by column. */
  lemma {:induction false} CollectSource(lines: seq<string>)
    ensures forall b :: b in Collect(lines) ==>
      exists k :: 0 <= k < |lines| && RowRecords(lines[k]) == [b]
  {
    if lines != [] {
      var init := lines[..|lines| - 1];
      CollectSource(init);
      forall b | b in Collect(lines)
        ensures exists k :: 0 <= k < |lines| && RowRecords(lines[k]) == [b]
      {
        if b in Collect(init) {
          var k :| 0 <= k < |init| && RowRecords(init[k]) == [b];
          assert lines[k] == init[k];
        } else {
          assert RowRecords(lines[|lines| - 1]) == [b];
        }
      }
    }
  }

  /** A document with no newline is a header alone and yields no record. */
  lemma HeaderOnly(csvText: string)
    requires '\n' !in csvText
    ensures Records(csvText) == []
  {
    SplitOnNone(csvText, '\n');
  }

  /** The header line never matters: two documents that differ only in their first line have the same records. */
  lemma HeaderIgnored(header1: string, header2: string, body: string)
    requires '\n' !in header1 && '\n' !in header2
    ensures Records(header1 + "\n" + body) == Records(header2 + "\n" + body)
  {
    SplitOnFirst(header1, '\n', body);
    SplitOnFirst(header2, '\n', body);
  }

  /** There are fewer records than lines: the header never produces one. */
  lemma RecordsLength(csvText: string)
    ensures |Records(csvText)| <= |SplitOn(csvText, '\n')| - 1
  {
    CollectLength(SplitOn(csvText, '\n')[1..]);
  }

  /**
   * The record of a row: `type` is fixed exactly when column 3 reads `Fixed`,
   * the name, map, cooldown and note are columns 2, 0, 5 and 9, the last
   * kill joins columns 3 and 4 and the respawn time columns 6 and 7 with a
   * space when both are non-empty (otherwise the first column alone), and the
   * level is the integer the column starts with, or 0 when there is none.
   */
  lemma RecordFields(line: string, b: Boss)
    requires RowRecords(line) == [b]
    ensures var values := CsvLine.SplitLine(Trim(line));
      && Trim(line) != [] && |values| >= MinFields
      && (b.bossType == FixedBoss <==> values[3] == "Fixed")
      && b.mapName == values[0] && b.name == values[2] && b.cooldown == values[5] && b.note == values[9]
      && (values[3] != [] && values[4] != [] ==> b.lastKilled == values[3] + " " + values[4])
      && (values[3] == [] || values[4] == [] ==> b.lastKilled == values[3])
      && (values[6] != [] && values[7] != [] ==> b.respawnTime == values[6] + " " + values[7])
      && (values[6] == [] || values[7] == [] ==> b.respawnTime == values[6])
      && (ParseInt(values[1]).None? ==> b.level == 0)
      && (ParseInt(values[1]).Some? ==> b.level == ParseInt(values[1]).value)
      && (b.bossType == FixedBoss ==> "Fixed" <= b.lastKilled)
  {
  }
}
