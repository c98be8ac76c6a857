/**
 `read_params` (arb_shtrih.py): a line-oriented parser for the parameters
 file. The file is seen through `TextLines.Readline`, a cursor into its
 lines that yields "" past the end, exactly as repeated `readline` calls do.
 Each loop iteration reads one line and tests it for the two markers; a
 marker consumes the following lines as values, and those value lines are
 never scanned for markers themselves. The loop ends when the scanned line is "".
 */
module Params {

  import opened TextLines

  const OracleMarker: string := "ORACLE_CONNECTION"
  const FilesMarker: string := "DDBF_files"

  type Params = map<string, string>

  /** The keys filled, in order, from the five lines after an `ORACLE_CONNECTION` line. */
  predicate IsConnectionKey(k: string) {
    k == "cli" || k == "host" || k == "service" || k == "authid" || k == "password"
  }

  /** The keys filled, in order, from the two lines after a `DDBF_files` line. */
  predicate IsFileKey(k: string) {
    k == "dbf7" || k == "dbf8"
  }

  /** Every key `read_params` can produce. */
  predicate IsParamName(k: string) {
    IsConnectionKey(k) || IsFileKey(k)
  }

  /** The value of a line (arb_shtrih.py:46-54): the text before the first '-', without surrounding whitespace. */
  function Value(line: string): string {
    Strip(BeforeFirst(line, '-'))
  }

  /**
   What a value is: the part of the line before its first '-', with the
   surrounding whitespace removed and nothing else; it never holds a '-'.
   */
  lemma ValueSpec(line: string)
    ensures IsStripOf(Value(line), BeforeFirst(line, '-'))
    ensures '-' !in Value(line)
  {
    var head := BeforeFirst(line, '-');
    StripSpec(head);
    StripKeepsAbsent(head, '-');
  }

  /** A scanned line `line` makes the iteration assign key `k`. */
  predicate Assigns(line: string, k: string) {
    || (IsConnectionKey(k) && Contains(line, OracleMarker))
    || (IsFileKey(k) && Contains(line, FilesMarker))
  }

  /**
   The cursor after the iteration that tests the line at `i`: one read for
   the scanned line, five more for a connection block, two for a files block.
   */
  function Advance(lines: seq<string>, i: nat): nat {
    var line := Readline(lines, i);
    i + 1 + (if Contains(line, OracleMarker) then 5 else 0) + (if Contains(line, FilesMarker) then 2 else 0)
  }

  /** The five assignments after an `ORACLE_CONNECTION` line, in source order. */
  function ConnectionBlock(p: Params, cli: string, host: string, service: string, authid: string, password: string): (q: Params)
    ensures "cli" in q && "host" in q && "service" in q && "authid" in q && "password" in q
    ensures forall k :: k in q <==> k in p || IsConnectionKey(k)
    ensures forall k :: k in p && !IsConnectionKey(k) ==> q[k] == p[k]
    ensures q["cli"] == cli && q["host"] == host && q["service"] == service
    ensures q["authid"] == authid && q["password"] == password
  {
    p["cli" := cli]["host" := host]["service" := service]["authid" := authid]["password" := password]
  }

  /** The two assignments after a `DDBF_files` line, in source order. */
  function FilesBlock(p: Params, dbf7: string, dbf8: string): (q: Params)
    ensures "dbf7" in q && "dbf8" in q
    ensures forall k :: k in q <==> k in p || IsFileKey(k)
    ensures forall k :: k in p && !IsFileKey(k) ==> q[k] == p[k]
    ensures q["dbf7"] == dbf7 && q["dbf8"] == dbf8
  {
    p["dbf7" := dbf7]["dbf8" := dbf8]
  }

  /** The assignments of one loop iteration whose scanned line is at `i`. */
  function Step(lines: seq<string>, i: nat, p: Params): (q: Params)
    ensures forall k :: k in q <==> k in p || Assigns(Readline(lines, i), k)
    ensures forall k :: k in p && !Assigns(Readline(lines, i), k) ==> q[k] == p[k]
  {
    var line := Readline(lines, i);
    if Contains(line, OracleMarker) then
      var p1 := ConnectionBlock(p, Value(Readline(lines, i + 1)), Value(Readline(lines, i + 2)),
                                Value(Readline(lines, i + 3)), Value(Readline(lines, i + 4)),
                                Value(Readline(lines, i + 5)));
      if Contains(line, FilesMarker) then
        FilesBlock(p1, Value(Readline(lines, i + 6)), Value(Readline(lines, i + 7)))
      else p1
    else if Contains(line, FilesMarker) then
      FilesBlock(p, Value(Readline(lines, i + 1)), Value(Readline(lines, i + 2)))
    else p
  }

  /**
   After an `ORACLE_CONNECTION` line the five connection keys hold the
   values of the five following lines; after a `DDBF_files` line the two
   file keys hold the values of the two following lines, or of the sixth
   and seventh when the same line also carries `ORACLE_CONNECTION`.
   Past end of file a value is "".
   */
  lemma StepValues(lines: seq<string>, i: nat, p: Params)
    ensures var q := Step(lines, i, p);
            Contains(Readline(lines, i), OracleMarker) ==>
              && "cli" in q && "host" in q && "service" in q && "authid" in q && "password" in q
              && q["cli"] == Value(Readline(lines, i + 1))
              && q["host"] == Value(Readline(lines, i + 2))
              && q["service"] == Value(Readline(lines, i + 3))
              && q["authid"] == Value(Readline(lines, i + 4))
              && q["password"] == Value(Readline(lines, i + 5))
    ensures var q := Step(lines, i, p);
            Contains(Readline(lines, i), FilesMarker) ==>
              var first := if Contains(Readline(lines, i), OracleMarker) then i + 6 else i + 1;
              && "dbf7" in q && "dbf8" in q
              && q["dbf7"] == Value(Readline(lines, first))
              && q["dbf8"] == Value(Readline(lines, first + 1))
  {
    var line := Readline(lines, i);
    var v1, v2, v3, v4, v5 := Value(Readline(lines, i + 1)), Value(Readline(lines, i + 2)),
                              Value(Readline(lines, i + 3)), Value(Readline(lines, i + 4)),
                              Value(Readline(lines, i + 5));
    if Contains(line, OracleMarker) {
      var p1 := ConnectionBlock(p, v1, v2, v3, v4, v5);
      if Contains(line, FilesMarker) {
        var v6, v7 := Value(Readline(lines, i + 6)), Value(Readline(lines, i + 7));
        assert Step(lines, i, p) == FilesBlock(p1, v6, v7);
      } else {
        assert Step(lines, i, p) == p1;
      }
    } else if Contains(line, FilesMarker) {
      assert Step(lines, i, p) == FilesBlock(p, v1, v2);
    }
  }

  /** The file keys a `DDBF_files` line assigns do not depend on the dictionary the iteration starts from. */
  lemma FileAssignsFresh(lines: seq<string>, i: nat, p: Params, p': Params, k: string)
    requires IsFileKey(k) && Contains(Readline(lines, i), FilesMarker)
    ensures k in Step(lines, i, p) && k in Step(lines, i, p')
    ensures Step(lines, i, p)[k] == Step(lines, i, p')[k]
  {
    StepValues(lines, i, p);
    StepValues(lines, i, p');
  }

  /** The connection keys an `ORACLE_CONNECTION` line assigns do not depend on the dictionary the iteration starts from. */
  lemma ConnectionAssignsFresh(lines: seq<string>, i: nat, p: Params, p': Params, k: string)
    requires IsConnectionKey(k) && Contains(Readline(lines, i), OracleMarker)
    ensures k in Step(lines, i, p) && k in Step(lines, i, p')
    ensures Step(lines, i, p)[k] == Step(lines, i, p')[k]
  {
    StepValues(lines, i, p);
    StepValues(lines, i, p');
  }

  /** Where the scan stops and what it has collected by then. */
  datatype Scan = Scan(params: Params, cursor: nat)

  /**
   The `while True` loop from cursor `i` with the dictionary `p` so far.
   It stops at the first scanned line that is "", which for lines that
   `readline` produces is end of file and nothing earlier.
   */
  function Run(lines: seq<string>, i: nat, p: Params): (r: Scan)
    ensures i <= r.cursor && Readline(lines, r.cursor) == ""
    ensures WellFormed(lines) ==> |lines| <= r.cursor
    ensures (forall k :: k in p ==> IsParamName(k)) ==> forall k :: k in r.params ==> IsParamName(k)
    decreases |lines| - i
  {
    if Readline(lines, i) == "" then Scan(p, i)
    else Run(lines, Advance(lines, i), Step(lines, i, p))
  }

  /** `read_params` on the lines of the parameters file. */
  function ReadParams(lines: seq<string>): (params: Params)
    ensures forall k :: k in params ==> IsParamName(k)
  {
    Run(lines, 0, map[]).params
  }

  /** Some scanned line from cursor `i` onwards assigns key `k`. */
  predicate AssignedFrom(lines: seq<string>, i: nat, k: string)
    decreases |lines| - i
  {
    Readline(lines, i) != "" && (Assigns(Readline(lines, i), k) || AssignedFrom(lines, Advance(lines, i), k))
  }

  /** A key is in the result exactly when it was there already or some later block assigns it; otherwise it is untouched. */
  lemma {:induction false} RunKeys(lines: seq<string>, i: nat, p: Params, k: string)
    ensures k in Run(lines, i, p).params <==> k in p || AssignedFrom(lines, i, k)
    ensures !AssignedFrom(lines, i, k) && k in p ==> Run(lines, i, p).params[k] == p[k]
    decreases |lines| - i
  {
    if Readline(lines, i) != "" {
      RunKeys(lines, Advance(lines, i), Step(lines, i, p), k);
    }
  }

  /** Once a later block assigns `k`, the value `k` had before does not matter: later blocks overwrite. */
  lemma {:induction false} RunOverwrites(lines: seq<string>, i: nat, p: Params, p': Params, k: string)
    requires AssignedFrom(lines, i, k)
    ensures k in Run(lines, i, p).params && k in Run(lines, i, p').params
    ensures Run(lines, i, p).params[k] == Run(lines, i, p').params[k]
    decreases |lines| - i
  {
    RunKeys(lines, i, p, k);
    RunKeys(lines, i, p', k);
    var j := Advance(lines, i);
    var q, q' := Step(lines, i, p), Step(lines, i, p');
    if AssignedFrom(lines, j, k) {
      RunOverwrites(lines, j, q, q', k);
    } else {
      if IsFileKey(k) && Contains(Readline(lines, i), FilesMarker) {
        FileAssignsFresh(lines, i, p, p', k);
      } else {
        ConnectionAssignsFresh(lines, i, p, p', k);
      }
      RunKeys(lines, j, q, k);
      RunKeys(lines, j, q', k);
    }
  }

  /**
   The value of `k` is the one assigned by the last block that assigns it:
   if the scanned line at `i` assigns `k` and no later scanned line does,
   the result holds what this iteration assigned.
   */
  lemma LastAssignmentWins(lines: seq<string>, i: nat, p: Params, k: string)
    requires Readline(lines, i) != "" && Assigns(Readline(lines, i), k)
    requires !AssignedFrom(lines, Advance(lines, i), k)
    ensures k in Run(lines, i, p).params
    ensures Run(lines, i, p).params[k] == Step(lines, i, p)[k]
  {
    RunKeys(lines, Advance(lines, i), Step(lines, i, p), k);
  }

  /** The keys of `read_params` are exactly those some scanned line assigns. */
  lemma ReadParamsKeys(lines: seq<string>, k: string)
    ensures k in ReadParams(lines) <==> AssignedFrom(lines, 0, k)
  {
    RunKeys(lines, 0, map[], k);
  }

  /** The scan that starts at cursor `i` goes on to test the line at cursor `j`. */
  predicate ScannedFrom(lines: seq<string>, i: nat, j: nat)
    decreases |lines| - i
  {
    Readline(lines, i) != "" && (i == j || ScannedFrom(lines, Advance(lines, i), j))
  }

  /** The dictionary the scan from `i` with `p` holds when it reaches the line at `j`. */
  function DictAt(lines: seq<string>, i: nat, p: Params, j: nat): Params
    requires ScannedFrom(lines, i, j)
    decreases |lines| - i
  {
    if i == j then p else DictAt(lines, Advance(lines, i), Step(lines, i, p), j)
  }

  /** A scan passes through every line it reaches: it continues from there with the dictionary it has built so far. */
  lemma {:induction false} RunThrough(lines: seq<string>, i: nat, p: Params, j: nat)
    requires ScannedFrom(lines, i, j)
    ensures Readline(lines, j) != ""
    ensures Run(lines, i, p) == Run(lines, j, DictAt(lines, i, p, j))
    decreases |lines| - i
  {
    if i != j {
      RunThrough(lines, Advance(lines, i), Step(lines, i, p), j);
    }
  }

  /**
   The value of a key in `read_params` is the one assigned by the last line
   of the scan from the top of the file that assigns the key.
   */
  lemma ReadParamsValue(lines: seq<string>, j: nat, k: string)
    requires ScannedFrom(lines, 0, j) && Assigns(Readline(lines, j), k)
    requires !AssignedFrom(lines, Advance(lines, j), k)
    ensures k in ReadParams(lines)
    ensures ReadParams(lines)[k] == Step(lines, j, DictAt(lines, 0, map[], j))[k]
  {
    RunThrough(lines, 0, map[], j);
    LastAssignmentWins(lines, j, DictAt(lines, 0, map[], j), k);
  }

  /**
   After the last `ORACLE_CONNECTION` line the scan reaches, `read_params`
   holds the values of the five lines that follow it.
   */
  lemma ReadParamsConnection(lines: seq<string>, j: nat)
    requires ScannedFrom(lines, 0, j) && Contains(Readline(lines, j), OracleMarker)
    requires forall k :: IsConnectionKey(k) ==> !AssignedFrom(lines, Advance(lines, j), k)
    ensures var q := ReadParams(lines);
            && "cli" in q && "host" in q && "service" in q && "authid" in q && "password" in q
            && q["cli"] == Value(Readline(lines, j + 1))
            && q["host"] == Value(Readline(lines, j + 2))
            && q["service"] == Value(Readline(lines, j + 3))
            && q["authid"] == Value(Readline(lines, j + 4))
            && q["password"] == Value(Readline(lines, j + 5))
  {
    var d := DictAt(lines, 0, map[], j);
    StepValues(lines, j, d);
    ReadParamsValue(lines, j, "cli");
    ReadParamsValue(lines, j, "host");
    ReadParamsValue(lines, j, "service");
    ReadParamsValue(lines, j, "authid");
    ReadParamsValue(lines, j, "password");
  }

  /**
   After the last `DDBF_files` line the scan reaches, `read_params` holds
   the values of the two lines that follow it, or of the sixth and seventh
   when that line also carries `ORACLE_CONNECTION`.
   */
  lemma ReadParamsFiles(lines: seq<string>, j: nat)
    requires ScannedFrom(lines, 0, j) && Contains(Readline(lines, j), FilesMarker)
    requires forall k :: IsFileKey(k) ==> !AssignedFrom(lines, Advance(lines, j), k)
    ensures var q := ReadParams(lines);
            var first := if Contains(Readline(lines, j), OracleMarker) then j + 6 else j + 1;
            && "dbf7" in q && "dbf8" in q
            && q["dbf7"] == Value(Readline(lines, first))
            && q["dbf8"] == Value(Readline(lines, first + 1))
  {
    var d := DictAt(lines, 0, map[], j);
    StepValues(lines, j, d);
    ReadParamsValue(lines, j, "dbf7");
    ReadParamsValue(lines, j, "dbf8");
  }

  /** A file without either marker yields the empty dictionary. */
  lemma {:induction false} NoMarkersNoParams(lines: seq<string>, i: nat, p: Params)
    requires forall j :: 0 <= j < |lines| ==> !Contains(lines[j], OracleMarker) && !Contains(lines[j], FilesMarker)
    ensures Run(lines, i, p).params == p
    decreases |lines| - i
  {
    if Readline(lines, i) != "" {
      NoMarkersNoParams(lines, Advance(lines, i), Step(lines, i, p));
    }
  }

  /** A blank line "\n" is not end of file: the scan goes on with the next line. */
  lemma BlankLineContinues(lines: seq<string>, i: nat, p: Params)
    requires Readline(lines, i) == "\n"
    ensures Run(lines, i, p) == Run(lines, i + 1, p)
  {
  }

  /** On a real file the scan reads every line before it stops. */
  lemma FileScanReachesEnd(text: string)
    ensures |SplitLines(text)| <= Run(SplitLines(text), 0, map[]).cursor
  {
  }

}
