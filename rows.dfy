/**
 * Reading CSV rows into records: every row is converted by a row parser, and
 * the first row that does not convert makes the whole read fail, as an
 * exception raised inside the reading loop does.
 */
module Rows {
  import opened Wrappers

  /** Every row converted, or None when some row does not convert. */
  function ParseAll<T>(rows: seq<seq<string>>, parse: seq<string> -> Option<T>): (r: Option<seq<T>>)
    ensures r.Some? ==> |r.value| == |rows|
    ensures r.Some? ==> forall i :: 0 <= i < |rows| ==> parse(rows[i]) == Some(r.value[i])
  {
    if rows == [] then Some([])
    else
      var init := ParseAll(rows[..|rows| - 1], parse);
      var last := parse(rows[|rows| - 1]);
      if init.None? || last.None? then None else Some(init.value + [last.value])
  }

  /** The read fails exactly when some row does not convert. */
  lemma {:induction false} ParseAllFails<T>(rows: seq<seq<string>>, parse: seq<string> -> Option<T>)
    ensures ParseAll(rows, parse).None? <==> exists i :: 0 <= i < |rows| && parse(rows[i]).None?
  {
    if rows != [] {
      var init := rows[..|rows| - 1];
      ParseAllFails(init, parse);
      if exists i :: 0 <= i < |init| && parse(init[i]).None? {
        var i :| 0 <= i < |init| && parse(init[i]).None?;
        assert rows[i] == init[i];
      }
      if exists i :: 0 <= i < |rows| && parse(rows[i]).None? {
        var i :| 0 <= i < |rows| && parse(rows[i]).None?;
        if i < |init| {
          assert init[i] == rows[i];
        }
      }
    }
  }

  /** The reading loop: rows are converted in order until one fails. */
  method ParseEach<T>(rows: seq<seq<string>>, parse: seq<string> -> Option<T>) returns (r: Option<seq<T>>)
    ensures r == ParseAll(rows, parse)
  {
    var parsed: seq<T> := [];
    var i := 0;
    while i < |rows|
      invariant 0 <= i <= |rows|
      invariant ParseAll(rows[..i], parse) == Some(parsed)
    {
      var x := parse(rows[i]);
      assert rows[..i + 1][..i] == rows[..i];
      if x.None? {
        ParseAllFails(rows[..i + 1], parse);
        ParseAllFails(rows, parse);
        assert rows[..i + 1][i] == rows[i];
        return None;
      }
      parsed := parsed + [x.value];
      i := i + 1;
    }
    assert rows[..i] == rows;
    return Some(parsed);
  }
}
