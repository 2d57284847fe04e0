/** Spreadsheet rows as the decoders see them, and the two batch policies that
    turn a list of rows into a list of records.

    A sheet arrives as a JSON envelope whose `values` member lists the rows; the
    first row is the column header. Decoding the envelope is left to the JSON
    library: its outcome is the `Result` a batch function receives. */
module Rows {
  import opened Wrappers

  /** One JSON value of `values`: an array of cells, where a cell is `Some` text
      for a JSON string and `None` for any other JSON value, or anything that is
      not an array. */
  datatype Value = Array(cells: seq<Option<string>>) | Scalar

  /** The `as_array` check and the arity check every decoder starts with. */
  function Cells(v: Value, n: nat): (r: Result<seq<Option<string>>>)
    ensures r.Ok? <==> v.Array? && |v.cells| == n
    ensures r.Ok? ==> r.value == v.cells && |r.value| == n
    ensures v.Scalar? ==> r == Err(ExpectedArray)
    ensures v.Array? && |v.cells| != n ==> r == Err(WrongArity(n, |v.cells|))
  {
    if v.Scalar? then Err(ExpectedArray)
    else if |v.cells| != n then Err(WrongArity(n, |v.cells|))
    else Ok(v.cells)
  }

  /** `get_str`: the text of a string cell; any other cell is an error naming
      its position. */
  function Cell(cells: seq<Option<string>>, i: nat): (r: Result<string>)
    requires i < |cells|
    ensures r.Ok? <==> cells[i].Some?
    ensures r.Ok? ==> r.value == cells[i].value
    ensures r.Err? ==> r.error == ExpectedStr(i)
  {
    match cells[i]
    case Some(s) => Ok(s)
    case None => Err(ExpectedStr(i))
  }

  /** The decoder may be called on every row after the header. */
  ghost predicate Callable<T>(rows: seq<Value>, decode: Value --> Result<T>) {
    forall i :: 0 <= i < |rows| ==> decode.requires(rows[i])
  }

  // ---------------------------------------------------------------------------
  // Current policy: a row that fails to decode is dropped

  /** The decoded rows that succeeded, in input order (`filter_map(Result::ok)`). */
  function KeepOk<T>(rows: seq<Value>, decode: Value --> Result<T>): (r: seq<T>)
    requires Callable(rows, decode)
    ensures |r| <= |rows|
    ensures forall k :: 0 <= k < |r| ==> exists i :: 0 <= i < |rows| && decode(rows[i]) == Ok(r[k])
  {
    if |rows| == 0 then []
    else
      var rest := KeepOk(rows[1..], decode);
      assert forall k :: 0 <= k < |rest| ==> exists i :: 0 <= i < |rows| && decode(rows[i]) == Ok(rest[k]) by {
        forall k | 0 <= k < |rest| ensures exists i :: 0 <= i < |rows| && decode(rows[i]) == Ok(rest[k]) {
          var j :| 0 <= j < |rows[1..]| && decode(rows[1..][j]) == Ok(rest[k]);
          assert rows[1..][j] == rows[j + 1];
        }
      }
      match decode(rows[0])
      case Ok(x) => [x] + rest
      case Err(_) => rest
  }

  /** The number of rows that decode. */
  function OkCount<T>(rows: seq<Value>, decode: Value --> Result<T>): nat
    requires Callable(rows, decode)
  {
    if |rows| == 0 then 0
    else (if decode(rows[0]).Ok? then 1 else 0) + OkCount(rows[1..], decode)
  }

  /** The decoder may be called on every row after the header. */
  ghost predicate CallableAfterHeader<T>(rows: seq<Value>, decode: Value --> Result<T>) {
    forall i :: 1 <= i < |rows| ==> decode.requires(rows[i])
  }

  lemma AfterHeader<T>(rows: seq<Value>, decode: Value --> Result<T>)
    requires |rows| > 0 && CallableAfterHeader(rows, decode)
    ensures Callable(rows[1..], decode)
  {
    forall i | 0 <= i < |rows[1..]| ensures decode.requires(rows[1..][i]) {
      assert rows[1..][i] == rows[i + 1];
    }
  }

  /** A record the current policy keeps comes from a row after the header. */
  lemma FromLaterRow<T>(rows: seq<Value>, decode: Value --> Result<T>, x: T)
    requires |rows| > 0 && Callable(rows[1..], decode)
    requires x in KeepOk(rows[1..], decode)
    ensures exists i :: 1 <= i < |rows| && decode.requires(rows[i]) && decode(rows[i]) == Ok(x)
  {
    var k :| 0 <= k < |KeepOk(rows[1..], decode)| && KeepOk(rows[1..], decode)[k] == x;
    var j :| 0 <= j < |rows[1..]| && decode(rows[1..][j]) == Ok(x);
    assert rows[1..][j] == rows[j + 1];
  }

  /** `parse_list`: only the envelope can fail the batch; the header row is
      skipped and every other row that fails is dropped. */
  function ParseList<T>(doc: Result<seq<Value>>, decode: Value --> Result<T>): (r: Result<seq<T>>)
    requires doc.Ok? ==> CallableAfterHeader(doc.value, decode)
    ensures r.Err? <==> doc.Err?
    ensures r.Err? ==> r.error == doc.error
    ensures r.Ok? && |doc.value| <= 1 ==> r.value == []
    ensures r.Ok? && |doc.value| > 1 ==> |r.value| <= |doc.value| - 1
    ensures r.Ok? ==> forall x :: x in r.value ==>
              exists i :: 1 <= i < |doc.value| && decode.requires(doc.value[i]) && decode(doc.value[i]) == Ok(x)
    ensures r.Ok? && |doc.value| > 0 ==>
              Callable(doc.value[1..], decode) && r.value == KeepOk(doc.value[1..], decode)
  {
    var rows :- doc;
    if |rows| == 0 then Ok([])
    else
      AfterHeader(rows, decode);
      var kept := KeepOk(rows[1..], decode);
      assert forall x :: x in kept ==>
               exists i :: 1 <= i < |rows| && decode.requires(rows[i]) && decode(rows[i]) == Ok(x) by {
        forall x | x in kept
          ensures exists i :: 1 <= i < |rows| && decode.requires(rows[i]) && decode(rows[i]) == Ok(x)
        {
          FromLaterRow(rows, decode, x);
        }
      }
      Ok(kept)
  }

  /** Dropping failures commutes with concatenation: each row contributes on
      its own, in its place. */
  lemma {:induction false} KeepOkAppend<T>(a: seq<Value>, b: seq<Value>, decode: Value --> Result<T>)
    requires Callable(a, decode) && Callable(b, decode)
    ensures Callable(a + b, decode)
    ensures KeepOk(a + b, decode) == KeepOk(a, decode) + KeepOk(b, decode)
    decreases |a|
  {
    assert Callable(a + b, decode) by {
      forall i | 0 <= i < |a + b| ensures decode.requires((a + b)[i]) {
        if i < |a| { assert (a + b)[i] == a[i]; } else { assert (a + b)[i] == b[i - |a|]; }
      }
    }
    if |a| == 0 {
      assert a + b == b;
    } else {
      assert (a + b)[1..] == a[1..] + b;
      assert Callable(a[1..], decode) by {
        forall i | 0 <= i < |a[1..]| ensures decode.requires(a[1..][i]) {
          assert a[1..][i] == a[i + 1];
        }
      }
      KeepOkAppend(a[1..], b, decode);
    }
  }

  /** A single row survives exactly when it decodes. */
  lemma KeepOkSingle<T>(v: Value, decode: Value --> Result<T>)
    requires decode.requires(v)
    ensures Callable([v], decode)
    ensures KeepOk([v], decode) == if decode(v).Ok? then [decode(v).value] else []
  {
    assert [v][1..] == [];
  }

  /** A failing row is dropped and the rows around it are kept, in order. */
  lemma DropFailedRow<T>(a: seq<Value>, v: Value, b: seq<Value>, decode: Value --> Result<T>)
    requires Callable(a, decode) && Callable(b, decode) && decode.requires(v)
    requires decode(v).Err?
    ensures Callable(a + [v] + b, decode)
    ensures KeepOk(a + [v] + b, decode) == KeepOk(a, decode) + KeepOk(b, decode)
  {
    KeepOkSingle(v, decode);
    KeepOkAppend(a, [v], decode);
    var av := a + [v];
    KeepOkAppend(av, b, decode);
    assert KeepOk([v], decode) == [];
    assert KeepOk(av, decode) == KeepOk(a, decode);
  }

  /** Exactly the rows that decode survive. */
  lemma {:induction false} KeepOkLength<T>(rows: seq<Value>, decode: Value --> Result<T>)
    requires Callable(rows, decode)
    ensures |KeepOk(rows, decode)| == OkCount(rows, decode)
    decreases |rows|
  {
    if |rows| > 0 {
      assert Callable(rows[1..], decode) by {
        forall i | 0 <= i < |rows[1..]| ensures decode.requires(rows[1..][i]) {
          assert rows[1..][i] == rows[i + 1];
        }
      }
      KeepOkLength(rows[1..], decode);
    }
  }

  /** The header row is never decoded: replacing it changes nothing. */
  lemma HeaderIgnored<T>(h1: Value, h2: Value, rows: seq<Value>, decode: Value --> Result<T>)
    requires Callable(rows, decode)
    ensures CallableAfterHeader([h1] + rows, decode) && CallableAfterHeader([h2] + rows, decode)
    ensures ParseList(Ok([h1] + rows), decode) == ParseList(Ok([h2] + rows), decode)
  {
    assert ([h1] + rows)[1..] == rows;
    assert ([h2] + rows)[1..] == rows;
    assert forall i :: 1 <= i < |rows| + 1 ==> ([h1] + rows)[i] == rows[i - 1] == ([h2] + rows)[i];
  }

  /** A sheet holding only its header gives an empty list. */
  lemma HeaderOnly<T>(h: Value, decode: Value --> Result<T>)
    ensures ParseList(Ok([h]), decode) == Ok([])
  {
    assert [h][1..] == [];
  }

  // ---------------------------------------------------------------------------
  // Older policy: one failing row fails the batch

  /** `collect::<Result<Vec<_>, _>>()`: every row decoded in order, stopping at
      the first failure, whose error becomes the batch's. */
  function CollectAll<T>(rows: seq<Value>, decode: Value --> Result<T>): (r: Result<seq<T>>)
    requires Callable(rows, decode)
    ensures r.Ok? <==> forall i :: 0 <= i < |rows| ==> decode(rows[i]).Ok?
    ensures r.Ok? ==> |r.value| == |rows|
    ensures r.Ok? ==> forall i :: 0 <= i < |rows| ==> decode(rows[i]) == Ok(r.value[i])
    ensures r.Err? ==> exists i :: 0 <= i < |rows| && decode(rows[i]) == Err(r.error)
                         && forall j :: 0 <= j < i ==> decode(rows[j]).Ok?
  {
    if |rows| == 0 then Ok([])
    else
      assert forall i :: 0 <= i < |rows[1..]| ==> rows[1..][i] == rows[i + 1];
      var x :- decode(rows[0]);
      var rest :- CollectAll(rows[1..], decode);
      Ok([x] + rest)
  }

  /** The older sheet decoders: header skipped, every other row must decode. */
  function ParseAll<T>(doc: Result<seq<Value>>, decode: Value --> Result<T>): (r: Result<seq<T>>)
    requires doc.Ok? ==> CallableAfterHeader(doc.value, decode)
    ensures doc.Err? ==> r == Err(doc.error)
    ensures doc.Ok? && |doc.value| > 0 ==>
              (r.Ok? <==> forall i :: 1 <= i < |doc.value| ==> decode(doc.value[i]).Ok?)
    ensures r.Ok? && |doc.value| > 0 ==> |r.value| == |doc.value| - 1
    ensures r.Ok? && |doc.value| > 0 ==>
              forall i :: 1 <= i < |doc.value| ==> decode(doc.value[i]) == Ok(r.value[i - 1])
  {
    var rows :- doc;
    if |rows| == 0 then Ok([])
    else
      AfterHeader(rows, decode);
      var r := CollectAll(rows[1..], decode);
      assert forall i :: 1 <= i < |rows| ==> rows[1..][i - 1] == rows[i];
      r
  }

  /** Where the older policy succeeds, the current one returns the same list;
      where a row fails, the older policy fails and the current one still succeeds. */
  lemma {:induction false} CollectAllAgrees<T>(rows: seq<Value>, decode: Value --> Result<T>)
    requires Callable(rows, decode)
    ensures CollectAll(rows, decode).Ok? ==> CollectAll(rows, decode).value == KeepOk(rows, decode)
    decreases |rows|
  {
    if |rows| > 0 {
      assert Callable(rows[1..], decode) by {
        forall i | 0 <= i < |rows[1..]| ensures decode.requires(rows[1..][i]) {
          assert rows[1..][i] == rows[i + 1];
        }
      }
      CollectAllAgrees(rows[1..], decode);
    }
  }

  /** The two policies on the same sheet. */
  lemma PoliciesAgree<T>(doc: Result<seq<Value>>, decode: Value --> Result<T>)
    requires doc.Ok? ==> CallableAfterHeader(doc.value, decode)
    ensures ParseAll(doc, decode).Ok? ==> ParseList(doc, decode) == ParseAll(doc, decode)
    ensures ParseAll(doc, decode).Err? && doc.Ok? ==> ParseList(doc, decode).Ok?
  {
    if doc.Ok? && |doc.value| > 0 {
      AfterHeader(doc.value, decode);
      CollectAllAgrees(doc.value[1..], decode);
    }
  }
}
