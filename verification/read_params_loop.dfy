/**
 The copy of `read_params` in invs_test.py, written as the imperative loop
 it is: one mutable cursor, one mutable dictionary, markers looked for before
 the end-of-file check. It computes exactly the dictionary that the
 arb_shtrih.py copy, modelled as `Params.ReadParams`, computes.
 */
module ParamsLoop {

  import opened TextLines
  import Params

  method ReadParams(lines: seq<string>) returns (params: map<string, string>)
    ensures params == Params.ReadParams(lines)
    ensures forall k :: k in params ==> Params.IsParamName(k)
  {
    params := map[];
    var pos: nat := 0;
    while true
      invariant Params.Run(lines, pos, params) == Params.Run(lines, 0, map[])
      decreases |lines| - pos
    {
      ghost var start, before := pos, params;
      var line := Readline(lines, pos);
      pos := pos + 1;
      if Contains(line, Params.OracleMarker) {
        params := params["cli" := Params.Value(Readline(lines, pos))];
        pos := pos + 1;
        params := params["host" := Params.Value(Readline(lines, pos))];
        pos := pos + 1;
        params := params["service" := Params.Value(Readline(lines, pos))];
        pos := pos + 1;
        params := params["authid" := Params.Value(Readline(lines, pos))];
        pos := pos + 1;
        params := params["password" := Params.Value(Readline(lines, pos))];
        pos := pos + 1;
      }
      if Contains(line, Params.FilesMarker) {
        params := params["dbf7" := Params.Value(Readline(lines, pos))];
        pos := pos + 1;
        params := params["dbf8" := Params.Value(Readline(lines, pos))];
        pos := pos + 1;
      }
      if line == "" {
        assert Params.Run(lines, start, before) == Params.Scan(before, start);
        break;
      }
      assert pos == Params.Advance(lines, start);
      assert params == Params.Step(lines, start, before);
    }
  }

}
