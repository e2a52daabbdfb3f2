/** The CSV-to-records step of chapter 13, in its chain form (preprocess, then parse)
    and its graph form (normalize, then header and body in parallel, then merge).
    Records are modelled as maps from header name to cell; JSON serialisation and
    the simulated delays are not part of the model. */
module CsvRecords {
  import opened Wrappers
  import opened Formatting

  type Record = map<string, string>

  // ---------------------------------------------------------------------------
  // Newline normalisation: Replace("\r\n", "\n") followed by Replace('\r', '\n')
  // ---------------------------------------------------------------------------

  /** `s.Replace("\r\n", "\n")`: non-overlapping matches, scanned left to right. */
  function ReplaceCrLf(s: string): (r: string)
    ensures |r| <= |s|
    ensures '\r' !in s ==> r == s
  {
    if |s| == 0 then ""
    else if |s| >= 2 && s[0] == '\r' && s[1] == '\n' then "\n" + ReplaceCrLf(s[2..])
    else [s[0]] + ReplaceCrLf(s[1..])
  }

  /** `s.Replace('\r', '\n')`. */
  function ReplaceCr(s: string): (r: string)
    ensures |r| == |s| && '\r' !in r
    ensures forall i :: 0 <= i < |s| && s[i] != '\r' ==> r[i] == s[i]
  {
    if |s| == 0 then "" else [if s[0] == '\r' then '\n' else s[0]] + ReplaceCr(s[1..])
  }

  /** Every line break, whether CRLF, lone CR or LF, becomes one LF. */
  function Normalize(raw: string): (norm: string)
    ensures '\r' !in norm && |norm| <= |raw|
  {
    ReplaceCr(ReplaceCrLf(raw))
  }

  lemma NormalizeIdempotent(raw: string)
    ensures Normalize(Normalize(raw)) == Normalize(raw)
  {
    var n := Normalize(raw);
    assert ReplaceCrLf(n) == n;
    CrFreeUnchanged(n);
  }

  lemma {:induction false} CrFreeUnchanged(s: string)
    requires '\r' !in s
    ensures ReplaceCr(s) == s
  {
    if |s| > 0 {
      assert '\r' !in s[1..];
      CrFreeUnchanged(s[1..]);
    }
  }

  /** A CRLF pair becomes one LF, so a Windows line break and a Unix one give the same text. */
  lemma NormalizeCrLf(a: string, b: string)
    requires '\r' !in a
    ensures Normalize(a + "\r\n" + b) == Normalize(a + "\n" + b)
  {
    var x, y := "\r\n" + b, "\n" + b;
    assert x[2..] == b && y[1..] == b;
    assert ReplaceCrLf(x) == ReplaceCrLf(y);
    CrLfPrefix(a, x);
    CrLfPrefix(a, y);
    AppendAssoc(a, "\r\n", b);
    AppendAssoc(a, "\n", b);
  }

  lemma AppendAssoc(x: string, y: string, z: string)
    ensures (x + y) + z == x + (y + z)
  {
  }

  lemma ReplaceCrLfHead(c: char, s: string)
    requires c != '\r'
    ensures ReplaceCrLf([c] + s) == [c] + ReplaceCrLf(s)
  {
    assert ([c] + s)[1..] == s;
  }

  lemma {:induction false} CrLfPrefix(a: string, b: string)
    requires '\r' !in a
    ensures ReplaceCrLf(a + b) == a + ReplaceCrLf(b)
  {
    if |a| > 0 {
      var t := a[1..];
      CrLfPrefix(t, b);
      assert a == [a[0]] + t;
      AppendAssoc([a[0]], t, b);
      ReplaceCrLfHead(a[0], t + b);
      AppendAssoc([a[0]], t, ReplaceCrLf(b));
    } else {
      assert a + b == b;
    }
  }

  // ---------------------------------------------------------------------------
  // String.Split(char) and the two StringSplitOptions used
  // ---------------------------------------------------------------------------

  /** `s.Split(sep)` with no options: the pieces between separators, empty ones included. */
  function Split(s: string, sep: char): (pieces: seq<string>)
    ensures |pieces| >= 1
    ensures forall p :: p in pieces ==> sep !in p
    ensures forall p, c :: p in pieces && c in p ==> c in s
  {
    if |s| == 0 then [""]
    else
      var rest := Split(s[1..], sep);
      if s[0] == sep then [""] + rest else [[s[0]] + rest[0]] + rest[1..]
  }

  /** `string.Join(sep, pieces)`, the inverse of Split. */
  function Join(pieces: seq<string>, sep: char): string
    requires |pieces| >= 1
  {
    if |pieces| == 1 then pieces[0] else pieces[0] + [sep] + Join(pieces[1..], sep)
  }

  lemma {:induction false} SplitJoin(s: string, sep: char)
    ensures Join(Split(s, sep), sep) == s
  {
    if |s| > 0 {
      var rest := Split(s[1..], sep);
      SplitJoin(s[1..], sep);
      if s[0] == sep {
        assert ([""] + rest)[1..] == rest;
      } else {
        var ps := [[s[0]] + rest[0]] + rest[1..];
        if |rest| > 1 {
          assert ps[1..] == rest[1..];
        }
      }
    }
  }

  lemma {:induction false} SplitWithoutSeparator(s: string, sep: char)
    requires sep !in s
    ensures Split(s, sep) == [s]
  {
    if |s| > 0 {
      assert sep !in s[1..];
      SplitWithoutSeparator(s[1..], sep);
      assert [s[0]] + s[1..] == s;
    }
  }

  /** `StringSplitOptions.RemoveEmptyEntries`: drops exactly the empty pieces, keeping order. */
  function RemoveEmpty(pieces: seq<string>): (kept: seq<string>)
    ensures forall p :: p in kept <==> p in pieces && p != ""
    ensures |kept| <= |pieces|
  {
    if |pieces| == 0 then []
    else if pieces[0] == "" then RemoveEmpty(pieces[1..])
    else [pieces[0]] + RemoveEmpty(pieces[1..])
  }

  /** Number of leading white-space characters. */
  function LeadingSpace(s: string): (k: nat)
    ensures k <= |s|
    ensures forall i :: 0 <= i < k ==> IsWhiteSpace(s[i])
    ensures k < |s| ==> !IsWhiteSpace(s[k])
  {
    if |s| > 0 && IsWhiteSpace(s[0]) then 1 + LeadingSpace(s[1..]) else 0
  }

  /** Number of trailing white-space characters. */
  function TrailingSpace(s: string): (k: nat)
    ensures k <= |s|
    ensures forall i :: |s| - k <= i < |s| ==> IsWhiteSpace(s[i])
    ensures k < |s| ==> !IsWhiteSpace(s[|s| - k - 1])
  {
    if |s| > 0 && IsWhiteSpace(s[|s| - 1]) then 1 + TrailingSpace(s[..|s| - 1]) else 0
  }

  /** `string.Trim()`: the longest middle slice that neither starts nor ends with white space. */
  function Trim(s: string): (r: string)
    ensures r == "" || (!IsWhiteSpace(r[0]) && !IsWhiteSpace(r[|r| - 1]))
    ensures r == "" <==> forall i :: 0 <= i < |s| ==> IsWhiteSpace(s[i])
    ensures LeadingSpace(s) + |r| <= |s| && r == s[LeadingSpace(s)..LeadingSpace(s) + |r|]
    ensures forall k :: LeadingSpace(s) + |r| <= k < |s| ==> IsWhiteSpace(s[k])
  {
    var lead := LeadingSpace(s);
    if lead == |s| then ""
    else
      var trail := TrailingSpace(s);
      assert lead < |s| - trail by {
        if |s| - trail <= lead {
          assert false;
        }
      }
      s[lead..|s| - trail]
  }

  /** `line.Split(',', StringSplitOptions.TrimEntries)`: every piece trimmed, empty ones kept. */
  function SplitTrimmed(line: string): (cells: seq<string>)
    ensures |cells| == |Split(line, ',')| >= 1
    ensures forall i :: 0 <= i < |cells| ==> cells[i] == Trim(Split(line, ',')[i])
  {
    var pieces := Split(line, ',');
    seq(|pieces|, i requires 0 <= i < |pieces| => Trim(pieces[i]))
  }

  // ---------------------------------------------------------------------------
  // Records: headers[c] -> cells[c] for every column both lines have
  // ---------------------------------------------------------------------------

  function Min(a: int, b: int): int { if a < b then a else b }

  /** The dictionary after the first `c` assignments `map[headers[k]] = cells[k]`. */
  function AssignColumns(headers: seq<string>, cells: seq<string>, c: nat): Record
    requires c <= |headers| && c <= |cells|
  {
    if c == 0 then map[] else AssignColumns(headers, cells, c - 1)[headers[c - 1] := cells[c - 1]]
  }

  /** The record one body line yields. */
  function RecordOf(headers: seq<string>, cells: seq<string>): Record {
    AssignColumns(headers, cells, Min(|headers|, |cells|))
  }

  /** The keys are the headers of the shared columns; each key holds the cell of its LAST
      column among them, so with a repeated header name the later column wins, and surplus
      cells or headers are ignored. */
  lemma {:induction false} AssignColumnsMeaning(headers: seq<string>, cells: seq<string>, c: nat)
    requires c <= |headers| && c <= |cells|
    ensures forall k :: k in AssignColumns(headers, cells, c) <==> exists i :: 0 <= i < c && headers[i] == k
    ensures forall i :: 0 <= i < c && (forall j :: i < j < c ==> headers[j] != headers[i]) ==>
      AssignColumns(headers, cells, c)[headers[i]] == cells[i]
  {
    if c > 0 {
      AssignColumnsMeaning(headers, cells, c - 1);
      var m := AssignColumns(headers, cells, c);
      forall k ensures k in m <==> exists i :: 0 <= i < c && headers[i] == k {
        if k == headers[c - 1] {
          assert headers[c - 1] == k;
        }
      }
    }
  }

  lemma RecordOfMeaning(headers: seq<string>, cells: seq<string>)
    ensures var m := Min(|headers|, |cells|);
      && (forall k :: k in RecordOf(headers, cells) <==> exists i :: 0 <= i < m && headers[i] == k)
      && (forall i :: 0 <= i < m && (forall j :: i < j < m ==> headers[j] != headers[i]) ==>
            RecordOf(headers, cells)[headers[i]] == cells[i])
  {
    AssignColumnsMeaning(headers, cells, Min(|headers|, |cells|));
  }

  /** One record per body line, in order. */
  function Records(headers: seq<string>, body: seq<string>): (records: seq<Record>)
    ensures |records| == |body|
    ensures forall i :: 0 <= i < |body| ==> records[i] == RecordOf(headers, SplitTrimmed(body[i]))
  {
    if |body| == 0 then []
    else Records(headers, body[..|body| - 1]) + [RecordOf(headers, SplitTrimmed(body[|body| - 1]))]
  }

  /** A line of white space only is not dropped by the newline split: it yields one record
      mapping the first header to the empty string. */
  lemma BlankLineRecord(headers: seq<string>, line: string)
    requires |headers| >= 1 && ',' !in line
    requires forall i :: 0 <= i < |line| ==> IsWhiteSpace(line[i])
    ensures RecordOf(headers, SplitTrimmed(line)) == map[headers[0] := ""]
  {
    SplitWithoutSeparator(line, ',');
    assert Trim(line) == "";
    var cells := SplitTrimmed(line);
    assert |cells| == 1 && cells[0] == "";
    assert AssignColumns(headers, cells, 0) == map[];
    assert RecordOf(headers, cells) == AssignColumns(headers, cells, 1);
  }

  // ---------------------------------------------------------------------------
  // Chain form (src/chains/chapter13/ChainChapter13.cs)
  // ---------------------------------------------------------------------------

  /** The preprocess step: normalised text split on LF, empty lines removed. */
  function Preprocess(raw: string): (lines: seq<string>)
    ensures forall l :: l in lines ==> l != "" && '\r' !in l && '\n' !in l
  {
    RemoveEmpty(Split(Normalize(raw), '\n'))
  }

  /** What the parse step produces from the preprocessed lines. */
  function ChainRecords(lines: seq<string>): seq<Record> {
    if |lines| == 0 then [] else Records(SplitTrimmed(lines[0]), lines[1..])
  }

  /** The record of body[i] appended to the records of the lines before it. */
  lemma RecordsNext(headers: seq<string>, body: seq<string>, i: nat)
    requires i < |body|
    ensures Records(headers, body[..i + 1]) == Records(headers, body[..i]) + [RecordOf(headers, SplitTrimmed(body[i]))]
  {
    assert body[..i + 1][..i] == body[..i];
  }

  /** The loop shared by both forms: one dictionary per body line, appended in order. */
  method BuildRecords(headers: seq<string>, body: seq<string>) returns (records: seq<Record>)
    ensures records == Records(headers, body)
  {
    records := [];
    for i := 0 to |body|
      invariant records == Records(headers, body[..i])
    {
      var m := FillRecord(headers, SplitTrimmed(body[i]));
      RecordsNext(headers, body, i);
      records := records + [m];
    }
    assert body[..|body|] == body;
  }

  /** The parse step: headers from the first line, then one dictionary per further line. */
  method ParseLines(lines: seq<string>) returns (records: seq<Record>)
    ensures records == ChainRecords(lines)
    ensures |lines| > 0 ==> |records| == |lines| - 1
  {
    if |lines| == 0 {
      return [];
    }
    records := BuildRecords(SplitTrimmed(lines[0]), lines[1..]);
  }

  /** The inner loop shared by both forms: `map[headers[c]] = cells[c]` while both have column c. */
  method FillRecord(headers: seq<string>, cells: seq<string>) returns (m: Record)
    ensures m == RecordOf(headers, cells)
    ensures forall k :: k in m ==> k in headers
  {
    m := map[];
    var c := 0;
    while c < |headers| && c < |cells|
      invariant 0 <= c <= |headers| && c <= |cells|
      invariant m == AssignColumns(headers, cells, c)
    {
      m := m[headers[c] := cells[c]];
      c := c + 1;
    }
    RecordOfMeaning(headers, cells);
  }

  /** The whole chain pipeline on the raw CSV text. */
  function ChainPipeline(csv: string): seq<Record> {
    ChainRecords(Preprocess(csv))
  }

  // ---------------------------------------------------------------------------
  // Graph form (src/graphs/chapter13/GraphChapter13.cs)
  // ---------------------------------------------------------------------------

  /** The parseHeader node: the first non-empty line, or "" when there is none, split and trimmed. */
  function ParseHeader(norm: string): (headers: seq<string>)
    ensures |headers| >= 1
  {
    var lines := RemoveEmpty(Split(norm, '\n'));
    SplitTrimmed(if |lines| == 0 then "" else lines[0])
  }

  /** The parseBody node: the non-empty lines after the first, in order (`Skip(1)`). */
  function ParseBody(norm: string): (body: seq<string>)
    ensures forall l :: l in body ==> l != "" && '\n' !in l
  {
    var lines := RemoveEmpty(Split(norm, '\n'));
    assert forall k :: 1 <= k < |lines| ==> lines[k] in lines;
    if |lines| == 0 then [] else lines[1..]
  }

  /** The merge node; a missing headers or body value falls back to an empty array. */
  method MergeRecords(headers: Option<seq<string>>, body: Option<seq<string>>) returns (records: seq<Record>)
    ensures records == Records(headers.GetOr([]), body.GetOr([]))
    ensures body.None? ==> records == []
  {
    records := BuildRecords(headers.GetOr([]), body.GetOr([]));
  }

  /** The whole graph pipeline on the raw CSV text, with both branches present. */
  function GraphPipeline(csv: string): seq<Record> {
    var norm := Normalize(csv);
    Records(ParseHeader(norm), ParseBody(norm))
  }

  /** The two forms produce the same records for every input, including empty input
      (where the graph form's headers are [""] but its body is empty). */
  lemma PipelinesAgree(csv: string)
    ensures GraphPipeline(csv) == ChainPipeline(csv)
  {
  }
}
