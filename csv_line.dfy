/**
 * The field splitter of `parseCSV` (boss-tracker-bot.js, lines 36-52): one
 * left-to-right scan that toggles an "inside quotes" flag on every `"`,
 * ends a field at every `,` met outside quotes and keeps every other
 * character; each field is trimmed, the last one when the line ends.
 */
module CsvLine {
  import opened Text

  /** What the scan holds between two characters: the finished fields, the field being read, the flag. */
  datatype ScanState = ScanState(values: seq<string>, current: string, inQuotes: bool)

  /** The scan's reaction to one character. */
  function Step(st: ScanState, c: char): ScanState {
    if c == '"' then st.(inQuotes := !st.inQuotes)
    else if c == ',' && !st.inQuotes then ScanState(st.values + [Trim(st.current)], "", st.inQuotes)
    else st.(current := st.current + [c])
  }

  /** The scan's state after reading all of `s`. */
  function Scan(s: string): ScanState
    decreases |s|
  {
    if s == [] then ScanState([], "", false) else Step(Scan(s[..|s| - 1]), s[|s| - 1])
  }

  /** The fields of one line, as the scan produces them once the last field is flushed. */
  function SplitLine(line: string): seq<string> {
    var st := Scan(line);
    st.values + [Trim(st.current)]
  }

  /** The scan of lines 36-52, with the state the source keeps in local variables. */
  method ParseLine(line: string) returns (values: seq<string>)
    ensures values == SplitLine(line)
    ensures |values| == |Separators(line)| + 1
  {
    values := [];
    var currentValue := "";
    var inQuotes := false;
    for j := 0 to |line|
      invariant Scan(line[..j]) == ScanState(values, currentValue, inQuotes)
    {
      assert line[..j + 1][..j] == line[..j];
      var c := line[j];
      if c == '"' {
        inQuotes := !inQuotes;
      } else if c == ',' && !inQuotes {
        values := values + [Trim(currentValue)];
        currentValue := "";
      } else {
        currentValue := currentValue + [c];
      }
    }
    assert line[..|line|] == line;
    values := values + [Trim(currentValue)];
    SplitLineSegments(line);
  }

  // ---------------------------------------------------------------------
  // An independent description of the fields: a comma separates fields
  // exactly when an even number of quote characters precede it, and each
  // field is the text between two separators with its quotes removed.
  // ---------------------------------------------------------------------

  /** The number of `"` characters in `s`. */
  function QuoteCount(s: string): nat {
    if s == [] then 0 else QuoteCount(s[..|s| - 1]) + (if s[|s| - 1] == '"' then 1 else 0)
  }

  /** The positions, in increasing order, of the commas of `s` preceded by an even number of quotes. */
  function Separators(s: string): seq<nat> {
    if s == [] then []
    else
      var p := s[..|s| - 1];
      Separators(p) + (if s[|s| - 1] == ',' && QuoteCount(p) % 2 == 0 then [|p|] else [])
  }

  /** `s` without its quote characters. */
  function Unquote(s: string): string {
    if s == [] then [] else Unquote(s[..|s| - 1]) + (if s[|s| - 1] == '"' then [] else [s[|s| - 1]])
  }

  /** The field a piece of line text yields: its quote characters dropped, then trimmed. */
  function FieldOf(piece: string): string {
    Trim(Unquote(piece))
  }

  /** Where field `k` begins: at the start of the line, or just after the separator before it. */
  function SegStart(s: string, k: nat): nat
    requires k <= |Separators(s)|
  {
    if k == 0 then 0 else Separators(s)[k - 1] + 1
  }

  /** Where field `k` ends: at the separator after it, or at the end of the line. */
  function SegEnd(s: string, k: nat): nat
    requires k <= |Separators(s)|
  {
    if k == |Separators(s)| then |s| else Separators(s)[k]
  }

  lemma UnquoteSnoc(x: string, c: char)
    ensures Unquote(x + [c]) == Unquote(x) + (if c == '"' then [] else [c])
  {
    assert (x + [c])[..|x|] == x;
  }

  lemma {:induction false} UnquoteHasNoQuote(s: string)
    ensures '"' !in Unquote(s)
  {
    if s != [] {
      UnquoteHasNoQuote(s[..|s| - 1]);
    }
  }

  /** The separators are commas outside quotes, strictly increasing, and none is missed. */
  lemma {:induction false} SeparatorsShape(s: string)
    ensures forall k :: 0 <= k < |Separators(s)| ==>
      Separators(s)[k] < |s| && s[Separators(s)[k]] == ',' && QuoteCount(s[..Separators(s)[k]]) % 2 == 0
    ensures forall k1, k2 :: 0 <= k1 < k2 < |Separators(s)| ==> Separators(s)[k1] < Separators(s)[k2]
  {
    if s != [] {
      var p := s[..|s| - 1];
      SeparatorsShape(p);
      forall j | 0 <= j < |p| ensures s[..j] == p[..j] && s[j] == p[j] { }
    }
  }

  /** Every comma preceded by an even number of quotes is a separator. */
  lemma {:induction false} SeparatorsComplete(s: string, j: nat)
    requires j < |s| && s[j] == ',' && QuoteCount(s[..j]) % 2 == 0
    ensures j in Separators(s)
  {
    var p := s[..|s| - 1];
    if j < |p| {
      assert p[j] == s[j] && p[..j] == s[..j];
      SeparatorsComplete(p, j);
    } else {
      assert p == s[..j];
    }
  }

  lemma QuoteCountSnoc(p: string, c: char)
    ensures QuoteCount(p + [c]) == QuoteCount(p) + (if c == '"' then 1 else 0)
  {
    assert (p + [c])[..|p|] == p;
  }

  lemma SeparatorsSnoc(p: string, c: char)
    ensures Separators(p + [c]) == Separators(p) + (if c == ',' && QuoteCount(p) % 2 == 0 then [|p|] else [])
  {
    assert (p + [c])[..|p|] == p;
  }

  lemma SegStartSnoc(p: string, c: char, k: nat)
    requires k <= |Separators(p)|
    ensures k <= |Separators(p + [c])| && SegStart(p + [c], k) == SegStart(p, k)
  {
    SeparatorsSnoc(p, c);
  }

  lemma SliceSnoc(p: string, c: char, a: nat, b: nat)
    requires a <= b <= |p|
    ensures (p + [c])[a..b] == p[a..b]
  {
  }

  lemma FieldSnoc(p: string, c: char, a: nat, b: nat, v: string)
    requires a <= b <= |p| && v == FieldOf(p[a..b])
    ensures v == FieldOf((p + [c])[a..b])
  {
    SliceSnoc(p, c, a, b);
  }

  /** Trimming the current field of `p` gives the field that ends where `p` ends. */
  lemma TrimCurrent(p: string, c: char, ls: nat, current: string)
    requires ls <= |p| && current == Unquote(p[ls..])
    ensures Trim(current) == FieldOf((p + [c])[ls..|p|])
  {
    SliceSnoc(p, c, ls, |p|);
    assert p[ls..|p|] == p[ls..];
  }

  /** The finished fields `values` are the trimmed, unquoted pieces before the first separators of `s`. */
  ghost predicate FieldsBefore(s: string, values: seq<string>) {
    && |values| <= |Separators(s)|
    && forall k {:trigger values[k]} :: 0 <= k < |values| ==>
         SegStart(s, k) <= Separators(s)[k] <= |s| &&
         values[k] == FieldOf(s[SegStart(s, k)..Separators(s)[k]])
  }

  /** Reading one more character never changes a finished field. */
  lemma FieldsBeforeSnoc(p: string, c: char, values: seq<string>)
    requires FieldsBefore(p, values)
    ensures FieldsBefore(p + [c], values)
  {
    var s := p + [c];
    SeparatorsSnoc(p, c);
    forall k | 0 <= k < |values|
      ensures SegStart(s, k) <= Separators(s)[k] <= |s|
      ensures values[k] == FieldOf(s[SegStart(s, k)..Separators(s)[k]])
    {
      var a, b, v := SegStart(p, k), Separators(p)[k], values[k];
      SegStartSnoc(p, c, k);
      FieldSnoc(p, c, a, b, v);
    }
  }

  lemma FieldsBeforeAppend(s: string, values: seq<string>, v: string)
    requires FieldsBefore(s, values) && |values| < |Separators(s)|
    requires SegStart(s, |values|) <= Separators(s)[|values|] <= |s|
    requires v == FieldOf(s[SegStart(s, |values|)..Separators(s)[|values|]])
    ensures FieldsBefore(s, values + [v])
  {
    var vs := values + [v];
    forall k | 0 <= k < |vs|
      ensures SegStart(s, k) <= Separators(s)[k] <= |s|
      ensures vs[k] == FieldOf(s[SegStart(s, k)..Separators(s)[k]])
    {
      if k < |values| {
        assert vs[k] == values[k];
      }
    }
  }

  /** The scan's state after `s`: the flag is the quote parity, the current field the unquoted tail. */
  ghost predicate ScanInvariant(s: string, st: ScanState) {
    && st.inQuotes == (QuoteCount(s) % 2 == 1)
    && |st.values| == |Separators(s)|
    && FieldsBefore(s, st.values)
    && SegStart(s, |Separators(s)|) <= |s|
    && st.current == Unquote(s[SegStart(s, |Separators(s)|)..])
  }

  /** Reading a separator comma finishes the current field. */
  lemma ScanStepSeparator(p: string, c: char, st: ScanState)
    requires ScanInvariant(p, st)
    requires c == ',' && !st.inQuotes
    ensures Step(st, c).inQuotes == (QuoteCount((p + [c])) % 2 == 1)
    ensures |Step(st, c).values| == |Separators((p + [c]))|
    ensures FieldsBefore((p + [c]), Step(st, c).values)
    ensures SegStart((p + [c]), |Separators((p + [c]))|) <= |(p + [c])|
    ensures Step(st, c).current == Unquote((p + [c])[SegStart((p + [c]), |Separators((p + [c]))|)..])
  {
    var s := p + [c];
    var n := |Separators(p)|;
    var ls := SegStart(p, n);
    QuoteCountSnoc(p, c);
    SeparatorsSnoc(p, c);
    SegStartSnoc(p, c, n);
    FieldsBeforeSnoc(p, c, st.values);
    TrimCurrent(p, c, ls, st.current);
    FieldsBeforeAppend(s, st.values, Trim(st.current));
    assert Separators(s) == Separators(p) + [|p|];
    assert SegStart(s, n + 1) == |s|;
    assert s[|s|..] == [];
  }

  /** A quote character flips the flag and adds nothing to the current field. */
  lemma ScanStepQuote(p: string, st: ScanState)
    requires ScanInvariant(p, st)
    ensures Step(st, '"').inQuotes == (QuoteCount((p + ['"'])) % 2 == 1)
    ensures |Step(st, '"').values| == |Separators((p + ['"']))|
    ensures FieldsBefore((p + ['"']), Step(st, '"').values)
    ensures SegStart((p + ['"']), |Separators((p + ['"']))|) <= |(p + ['"'])|
    ensures Step(st, '"').current == Unquote((p + ['"'])[SegStart((p + ['"']), |Separators((p + ['"']))|)..])
  {
    var s := p + ['"'];
    var n := |Separators(p)|;
    var ls := SegStart(p, n);
    assert Step(st, '"') == st.(inQuotes := !st.inQuotes);
    QuoteCountSnoc(p, '"');
    ParityFlip(QuoteCount(p));
    assert QuoteCount(s) == QuoteCount(p) + 1;
    assert (QuoteCount(s) % 2 == 1) == !st.inQuotes;
    SeparatorsSnoc(p, '"');
    SegStartSnoc(p, '"', n);
    FieldsBeforeSnoc(p, '"', st.values);
    assert s[ls..] == p[ls..] + ['"'];
    UnquoteSnoc(p[ls..], '"');
  }

  /** Any other character, or a comma inside quotes, is appended to the current field. */
  lemma ScanStepOther(p: string, c: char, st: ScanState)
    requires ScanInvariant(p, st)
    requires c != '"' && !(c == ',' && !st.inQuotes)
    ensures Step(st, c).inQuotes == (QuoteCount((p + [c])) % 2 == 1)
    ensures |Step(st, c).values| == |Separators((p + [c]))|
    ensures FieldsBefore((p + [c]), Step(st, c).values)
    ensures SegStart((p + [c]), |Separators((p + [c]))|) <= |(p + [c])|
    ensures Step(st, c).current == Unquote((p + [c])[SegStart((p + [c]), |Separators((p + [c]))|)..])
  {
    var s := p + [c];
    var n := |Separators(p)|;
    var ls := SegStart(p, n);
    assert Step(st, c) == st.(current := st.current + [c]);
    QuoteCountSnoc(p, c);
    SeparatorsSnoc(p, c);
    SegStartSnoc(p, c, n);
    FieldsBeforeSnoc(p, c, st.values);
    assert s[ls..] == p[ls..] + [c];
    UnquoteSnoc(p[ls..], c);
  }

  lemma ParityFlip(n: nat)
    ensures (n + 1) % 2 == 1 <==> n % 2 != 1
  {
  }

  /**
   * What the scan holds after reading `s`: the flag is the parity of the quotes
   * read, there is one finished field per separator, and the current field is
   * the unquoted text after the last separator.
   */
  lemma {:induction false} ScanMeaning(s: string)
    ensures Scan(s).inQuotes == (QuoteCount(s) % 2 == 1)
    ensures |Scan(s).values| == |Separators(s)|
    ensures FieldsBefore(s, Scan(s).values)
    ensures SegStart(s, |Separators(s)|) <= |s|
    ensures Scan(s).current == Unquote(s[SegStart(s, |Separators(s)|)..])
  {
    if s != [] {
      var p, c := s[..|s| - 1], s[|s| - 1];
      ScanMeaning(p);
      assert s == p + [c];
      if c == '"' {
        ScanStepQuote(p, Scan(p));
      } else if c == ',' && !Scan(p).inQuotes {
        ScanStepSeparator(p, c, Scan(p));
      } else {
        ScanStepOther(p, c, Scan(p));
      }
    }
  }

  /**
   * The fields of a line are exactly the trimmed, unquoted pieces between its
   * separators: there is one more field than there are commas outside quotes,
   * and a comma inside quotes is kept as content, however unbalanced the quoting.
   */
  lemma SplitLineSegments(line: string)
    ensures |SplitLine(line)| == |Separators(line)| + 1
    ensures forall k {:trigger SplitLine(line)[k]} :: 0 <= k < |SplitLine(line)| ==>
      SegStart(line, k) <= SegEnd(line, k) <= |line| &&
      SplitLine(line)[k] == FieldOf(line[SegStart(line, k)..SegEnd(line, k)])
  {
    var st := Scan(line);
    var n := |Separators(line)|;
    ScanMeaning(line);
    forall k | 0 <= k < |SplitLine(line)|
      ensures SegStart(line, k) <= SegEnd(line, k) <= |line|
      ensures SplitLine(line)[k] == FieldOf(line[SegStart(line, k)..SegEnd(line, k)])
    {
      if k < n {
        assert SplitLine(line)[k] == st.values[k];
      } else {
        LastField(line, SegStart(line, n), st.current);
      }
    }
  }

  lemma LastField(line: string, ls: nat, current: string)
    requires ls <= |line| && current == Unquote(line[ls..])
    ensures Trim(current) == FieldOf(line[ls..|line|])
  {
    assert line[ls..|line|] == line[ls..];
  }

  /** No field ever contains a quote character: every `"` only toggles the flag. */
  lemma NoQuoteInFields(line: string)
    ensures forall k :: 0 <= k < |SplitLine(line)| ==> '"' !in SplitLine(line)[k]
  {
    SplitLineSegments(line);
    forall k | 0 <= k < |SplitLine(line)| ensures '"' !in SplitLine(line)[k] {
      var f := SplitLine(line)[k];
      var piece := line[SegStart(line, k)..SegEnd(line, k)];
      UnquoteHasNoQuote(piece);
      TrimShape(Unquote(piece));
    }
  }

  /** Every field is trimmed: none starts or ends with whitespace. */
  lemma FieldsTrimmed(line: string)
    ensures forall k :: 0 <= k < |SplitLine(line)| ==>
      (SplitLine(line)[k] == [] ||
       (!IsWhitespace(SplitLine(line)[k][0]) && !IsWhitespace(SplitLine(line)[k][|SplitLine(line)[k]| - 1])))
  {
    SplitLineSegments(line);
    forall k | 0 <= k < |SplitLine(line)|
      ensures SplitLine(line)[k] == [] ||
        (!IsWhitespace(SplitLine(line)[k][0]) && !IsWhitespace(SplitLine(line)[k][|SplitLine(line)[k]| - 1]))
    {
      TrimShape(Unquote(line[SegStart(line, k)..SegEnd(line, k)]));
    }
  }

  /**
   * A comma separates two fields exactly when an even number of quote
   * characters precede it; a comma after an odd number is field content.
   */
  lemma SeparatorIff(s: string, j: nat)
    ensures j in Separators(s) <==> j < |s| && s[j] == ',' && QuoteCount(s[..j]) % 2 == 0
  {
    SeparatorsShape(s);
    if j < |s| && s[j] == ',' && QuoteCount(s[..j]) % 2 == 0 {
      SeparatorsComplete(s, j);
    }
  }
}
