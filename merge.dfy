/** mergeInsert (source.go): several INSERT statements folded into one. The
    first statement is kept as it is, less its ";"; every later one gives
    what follows its first VALUES, less its ";", after a comma. */
module Merge {
  import opened Base
  import opened Text

  /** What a later statement contributes: the text after its first VALUES,
      without a trailing ";". None when it has no VALUES. */
  function ValuesTail(sql: string): (tail: Option<string>)
  {
    match IndexOf(sql, "VALUES")
    case None => None
    case Some(i) => Some(TrimSuffix(TrimPrefix(sql[i..], "VALUES"), ";"))
  }

  /** f of every element, in order; None as soon as f gives None. */
  function AllSome<T, U>(f: T -> Option<U>, xs: seq<T>): (r: Option<seq<U>>)
  {
    if xs == [] then Some([])
    else
      match AllSome(f, xs[..|xs| - 1])
      case None => None
      case Some(ys) =>
        match f(xs[|xs| - 1])
        case None => None
        case Some(y) => Some(ys + [y])
  }

  /** The contributions of the statements, in order; None as soon as one
      has no VALUES. */
  function Tails(sqls: seq<string>): (r: Option<seq<string>>)
  {
    AllSome(ValuesTail, sqls)
  }

  /** Each piece after a comma. */
  function Commas(ts: seq<string>): (r: string)
  {
    if ts == [] then "" else Commas(ts[..|ts| - 1]) + "," + ts[|ts| - 1]
  }

  /** The merged statement, or the error mergeInsert returns. */
  function Merged(sqls: seq<string>): (r: Result<string>)
  {
    if sqls == [] then Failure(NoInput)
    else
      match Tails(sqls[1..])
      case None => Failure(MissingValues)
      case Some(ts) => Success(TrimSuffix(sqls[0], ";") + Commas(ts) + ";")
  }

  lemma CommasStep(p: string, ts: seq<string>, t: string)
    ensures p + Commas(ts + [t]) == p + Commas(ts) + "," + t
  {
    assert (ts + [t])[..|ts|] == ts;
  }

  /** AllSome gives a value exactly when f gives one for every element,
      and then gives those values in order. */
  lemma {:induction false} AllSomeAt<T, U>(f: T -> Option<U>, xs: seq<T>)
    ensures AllSome(f, xs).Some? <==> forall k :: 0 <= k < |xs| ==> f(xs[k]).Some?
    ensures AllSome(f, xs).Some? ==>
      |AllSome(f, xs).value| == |xs| &&
      forall k :: 0 <= k < |xs| ==> AllSome(f, xs).value[k] == f(xs[k]).value
    decreases |xs|
  {
    if xs != [] {
      var init := xs[..|xs| - 1];
      AllSomeAt(f, init);
      assert forall k :: 0 <= k < |init| ==> init[k] == xs[k];
      if AllSome(f, xs).Some? {
        var ys := AllSome(f, init).value;
        var y := f(xs[|xs| - 1]).value;
        assert AllSome(f, xs).value == ys + [y];
        forall k | 0 <= k < |xs|
          ensures AllSome(f, xs).value[k] == f(xs[k]).value
        {
          if k < |init| {
            assert (ys + [y])[k] == ys[k];
          }
        }
      }
    }
  }

  /** Once a prefix of the list has an element f gives None for, so has the
      whole list. */
  lemma AllSomeNoneKept<T, U>(f: T -> Option<U>, xs: seq<T>, n: nat)
    requires n <= |xs| && AllSome(f, xs[..n]).None?
    ensures AllSome(f, xs).None?
  {
    AllSomeAt(f, xs[..n]);
    AllSomeAt(f, xs);
    var k :| 0 <= k < n && f(xs[..n][k]).None?;
    assert xs[..n][k] == xs[k];
  }

  /** The contributions are those of each statement, in order, and there
      are contributions exactly when every statement has a VALUES. */
  lemma TailsAt(sqls: seq<string>)
    ensures Tails(sqls).Some? <==> forall k :: 0 <= k < |sqls| ==> ValuesTail(sqls[k]).Some?
    ensures Tails(sqls).Some? ==>
      |Tails(sqls).value| == |sqls| &&
      forall k :: 0 <= k < |sqls| ==> Tails(sqls).value[k] == ValuesTail(sqls[k]).value
  {
    AllSomeAt(ValuesTail, sqls);
  }

  /** mergeInsert fails with "no input provided" exactly on an empty list,
      and with "invalid SQL: missing VALUES keyword" exactly when a
      statement after the first has no VALUES; the first statement is never
      looked at. */
  lemma MergeFailures(sqls: seq<string>)
    ensures Merged(sqls) == Failure(NoInput) <==> sqls == []
    ensures Merged(sqls) == Failure(MissingValues) <==>
      sqls != [] && exists k :: 1 <= k < |sqls| && IndexOf(sqls[k], "VALUES").None?
    ensures Merged(sqls).Failure? ==> Merged(sqls).error == NoInput || Merged(sqls).error == MissingValues
  {
    if sqls != [] {
      var rest := sqls[1..];
      TailsAt(rest);
      if Tails(rest).None? {
        var k :| 0 <= k < |rest| && ValuesTail(rest[k]).None?;
        assert IndexOf(sqls[k + 1], "VALUES").None?;
      } else {
        forall k | 1 <= k < |sqls|
          ensures IndexOf(sqls[k], "VALUES").Some?
        {
          assert ValuesTail(rest[k - 1]).Some?;
        }
      }
    }
  }

  /** A statement has a contribution exactly when VALUES occurs in it, and
      the contribution is what follows the first VALUES, less a trailing
      ";". */
  lemma ValuesTailShape(sql: string)
    ensures ValuesTail(sql).None? <==> IndexOf(sql, "VALUES").None?
    ensures ValuesTail(sql).Some? ==>
      var i := IndexOf(sql, "VALUES").value;
      i + 6 <= |sql| && ValuesTail(sql).value == TrimSuffix(sql[i + 6..], ";")
  {
    match IndexOf(sql, "VALUES")
    case None =>
    case Some(i) =>
      assert TrimPrefix(sql[i..], "VALUES") == sql[i + 6..];
  }

  /** The merged statement is the first statement less its ";", then one
      piece after a comma per later statement, its contribution, then
      ";". */
  lemma MergedPieces(sqls: seq<string>)
    requires Merged(sqls).Success?
    ensures |sqls| > 0 && Tails(sqls[1..]).Some?
    ensures var ts := Tails(sqls[1..]).value;
      && Merged(sqls).value == TrimSuffix(sqls[0], ";") + Commas(ts) + ";"
      && |ts| == |sqls| - 1
      && forall k :: 1 <= k < |sqls| ==> ValuesTail(sqls[k]).Some? && ts[k - 1] == ValuesTail(sqls[k]).value
  {
    var rest := sqls[1..];
    TailsAt(rest);
    assert forall k :: 1 <= k < |sqls| ==> rest[k - 1] == sqls[k];
  }

  /** A single statement merges into itself less its ";" plus ";": one
      that already ends with ";" comes back unchanged. Whether it has a
      VALUES does not matter. */
  lemma MergeSingle(sql: string)
    ensures Merged([sql]) == Success(TrimSuffix(sql, ";") + ";")
    ensures HasSuffix(sql, ";") ==> Merged([sql]) == Success(sql)
  {
    assert [sql][1..] == [];
    assert Tails([]) == Some([]);
    assert TrimSuffix(sql, ";") + Commas([]) == TrimSuffix(sql, ";");
  }

  /** A statement whose first VALUES comes right after `head` contributes
      the text after that VALUES, less a trailing ";". */
  lemma ValuesTailAfter(head: string, body: string)
    requires forall j :: 0 <= j < |head| ==> !OccursAt(head + "VALUES" + body, "VALUES", j)
    ensures ValuesTail(head + "VALUES" + body) == Some(TrimSuffix(body, ";"))
  {
    var s := head + "VALUES" + body;
    assert OccursAt(s, "VALUES", |head|);
    assert s[|head|..] == "VALUES" + body;
  }

  /** No VALUES starts among the first n characters when none of them is a
      V. */
  lemma NoValuesBefore(s: string, n: nat)
    requires n <= |s| && 'V' !in s[..n]
    ensures forall j :: 0 <= j < n ==> !OccursAt(s, "VALUES", j)
  {
    forall j | 0 <= j < n
      ensures !OccursAt(s, "VALUES", j)
    {
      assert s[..n][j] == s[j];
      if j + 6 <= |s| {
        assert s[j..j + 6][0] == s[j];
      }
    }
  }

  /** A VALUES cannot start inside a head without VALUES and run into the
      VALUES after it: no suffix of "VALUES" but the whole word starts with
      a V. */
  lemma NoValuesInHead(head: string, body: string)
    requires IndexOf(head, "VALUES").None?
    ensures forall j :: 0 <= j < |head| ==> !OccursAt(head + "VALUES" + body, "VALUES", j)
  {
    var s := head + "VALUES" + body;
    forall j | 0 <= j < |head|
      ensures !OccursAt(s, "VALUES", j)
    {
      if j + 6 > |s| {
      } else if j + 6 <= |head| {
        assert s[j..j + 6] == head[j..j + 6];
        assert !OccursAt(head, "VALUES", j);
      } else {
        var d := |head| - j;
        assert s[j..j + 6][d] == 'V';
        assert "VALUES"[d] != 'V';
      }
    }
  }

  /** Statements into the same table, `head` VALUES `v` ";", merge into one
      statement with all their value lists, in order, after one VALUES, as
      in mergeInsert's doc comment, whenever the head holds no VALUES of its
      own, so that the VALUES after it is the first. */
  lemma MergeSameTable(head: string, vs: seq<string>)
    requires IndexOf(head, "VALUES").None? && |vs| > 0
    ensures Merged(seq(|vs|, k requires 0 <= k < |vs| => head + "VALUES" + vs[k] + ";"))
         == Success(head + "VALUES" + vs[0] + Commas(vs[1..]) + ";")
  {
    var sqls := seq(|vs|, k requires 0 <= k < |vs| => head + "VALUES" + vs[k] + ";");
    var rest := sqls[1..];
    forall k | 0 <= k < |rest|
      ensures ValuesTail(rest[k]) == Some(vs[k + 1])
    {
      var s := head + "VALUES" + (vs[k + 1] + ";");
      assert rest[k] == s;
      NoValuesInHead(head, vs[k + 1] + ";");
      ValuesTailAfter(head, vs[k + 1] + ";");
      assert TrimSuffix(vs[k + 1] + ";", ";") == vs[k + 1];
    }
    TailsAt(rest);
    assert Tails(rest).value == vs[1..];
    var first := head + "VALUES" + vs[0];
    assert sqls[0] == first + ";";
    assert TrimSuffix(first + ";", ";") == first;
  }

  /** A table whose name holds VALUES: strings.Index finds the VALUES in the
      name, so a later statement contributes the rest of its name and its own
      VALUES. */
  lemma ValuesInTableName()
    ensures ValuesTail("INSERT INTO `MYVALUES` VALUES (2);") == Some("` VALUES (2)")
  {
    var h0 := "INSERT INTO `MY";
    var body := "` VALUES (2);";
    var s2 := h0 + "VALUES" + body;
    assert s2 == "INSERT INTO `MYVALUES` VALUES (2);";
    assert s2[..|h0|] == h0;
    NoValuesBefore(s2, |h0|);
    ValuesTailAfter(h0, body);
    assert TrimSuffix(body, ";") == "` VALUES (2)";
  }

  /** Two statements merge into the first less its ";", a comma, the
      second's contribution and ";". */
  lemma MergeTwo(first: string, second: string)
    requires ValuesTail(second).Some?
    ensures Merged([first, second]) == Success(TrimSuffix(first, ";") + "," + ValuesTail(second).value + ";")
  {
    var sqls := [first, second];
    assert sqls[1..] == [second];
    TailsAt(sqls[1..]);
    var ts := Tails(sqls[1..]).value;
    var t := ValuesTail(second).value;
    assert ts == [t];
    assert ts[..0] == [];
    assert Commas(ts) == "" + "," + t;
    assert Merged(sqls) == Success(TrimSuffix(first, ";") + Commas(ts) + ";");
    assert "" + "," + t == "," + t;
    var h := TrimSuffix(first, ";");
    assert h + ("," + t) + ";" == h + "," + t + ";";
  }

  /** Two rows of such a table merge into text that is not a valid
      statement: the second row's part of the name lands after the comma. */
  lemma MergeValuesInTableName()
    ensures Merged(["INSERT INTO `MYVALUES` VALUES (1);", "INSERT INTO `MYVALUES` VALUES (2);"])
         == Success("INSERT INTO `MYVALUES` VALUES (1),` VALUES (2);")
  {
    var a := "INSERT INTO `MYVALUES` VALUES (1)";
    assert a + "," + "` VALUES (2)" + ";" == "INSERT INTO `MYVALUES` VALUES (1),` VALUES (2);";
    var first := "INSERT INTO `MYVALUES` VALUES (1);";
    assert TrimSuffix(first, ";") == a;
    ValuesInTableName();
    MergeTwo(first, "INSERT INTO `MYVALUES` VALUES (2);");
  }

  /** mergeInsert: the first statement less its ";", then for every later
      statement a comma and the text after its first VALUES less its ";",
      then ";". */
  method MergeInsert(insertSQLs: seq<string>) returns (r: Result<string>)
    ensures r == Merged(insertSQLs)
  {
    if |insertSQLs| == 0 {
      return Failure(NoInput);
    }
    var builder := TrimSuffix(insertSQLs[0], ";");
    var rest := insertSQLs[1..];
    ghost var ts: seq<string> := [];
    var i := 0;
    while i < |rest|
      invariant 0 <= i <= |rest| && rest == insertSQLs[1..]
      invariant Tails(rest[..i]) == Some(ts)
      invariant builder == TrimSuffix(insertSQLs[0], ";") + Commas(ts)
    {
      assert rest[..i + 1][..i] == rest[..i];
      // i counts the later statements only, so this test always holds
      if i < |insertSQLs| - 1 {
        builder := builder + ",";
      }
      var valuesIdx := IndexOf(rest[i], "VALUES");
      if valuesIdx.None? {
        AllSomeNoneKept(ValuesTail, rest, i + 1);
        return Failure(MissingValues);
      }
      var dml := rest[i][valuesIdx.value..];
      dml := TrimPrefix(dml, "VALUES");
      dml := TrimSuffix(dml, ";");
      CommasStep(TrimSuffix(insertSQLs[0], ";"), ts, dml);
      builder := builder + dml;
      ts := ts + [dml];
      i := i + 1;
    }
    assert rest[..i] == rest;
    builder := builder + ";";
    r := Success(builder);
  }
}
