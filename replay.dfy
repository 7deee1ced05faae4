/** The restore side (source.go): trim, the reader that hands out
    ";"-terminated statements, the batching of INSERT statements for
    mergeInsert, the database wrapper and the Source loop that runs a dump
    back into a database. */
module Replay {
  import opened Base
  import opened Text
  import opened Merge

  // ---- trim ----

  /** trim: the leading newlines, then the surrounding white space, go.
      Its error result is always nil, so it is not modelled. */
  function Trim(s: string): (r: string)
    ensures Tidy(r)
  {
    TrimSpace(TrimLeftNewlines(s))
  }

  /** trim changes nothing the second time. */
  lemma TrimIdempotent(s: string)
    ensures Trim(Trim(s)) == Trim(s)
  {
    var t := Trim(s);
    assert TrimLeftNewlines(t) == t;
    TrimSpaceTidy(t);
  }

  // ---- the statements of the input ----

  /** Where the next ";" at or after pos is. */
  function NextSemicolon(s: string, pos: nat): (r: Option<nat>)
    requires pos <= |s|
    ensures r.Some? ==> pos <= r.value < |s|
    decreases |s| - pos
  {
    if pos == |s| then None
    else if s[pos] == ';' then Some(pos)
    else NextSemicolon(s, pos + 1)
  }

  /** NextSemicolon finds the first ";" at or after pos, and None exactly
      when there is none. */
  lemma {:induction false} NextSemicolonFirst(s: string, pos: nat)
    requires pos <= |s|
    ensures var r := NextSemicolon(s, pos);
      && (r.Some? ==> s[r.value] == ';' && forall j :: pos <= j < r.value ==> s[j] != ';')
      && (r.None? ==> forall j :: pos <= j < |s| ==> s[j] != ';')
    decreases |s| - pos
  {
    if pos < |s| && s[pos] != ';' {
      NextSemicolonFirst(s, pos + 1);
    }
  }

  /** The ";"-terminated statements of s from pos on, as successive
      ReadString(';') calls return them; the text after the last ";" is not
      one of them. */
  function ChunksFrom(s: string, pos: nat): (r: seq<string>)
    requires pos <= |s|
    decreases |s| - pos
  {
    match NextSemicolon(s, pos)
    case None => []
    case Some(j) => [s[pos..j + 1]] + ChunksFrom(s, j + 1)
  }

  function Chunks(s: string): (r: seq<string>)
  {
    ChunksFrom(s, 0)
  }

  /** Every statement ends with its ";" and holds no other. */
  lemma {:induction false} ChunkShape(s: string, pos: nat)
    requires pos <= |s|
    ensures forall c :: c in ChunksFrom(s, pos) ==> |c| > 0 && c[|c| - 1] == ';' && ';' !in c[..|c| - 1]
    decreases |s| - pos
  {
    match NextSemicolon(s, pos)
    case None =>
    case Some(j) =>
      NextSemicolonFirst(s, pos);
      ChunkShape(s, j + 1);
      var c := s[pos..j + 1];
      assert c[..|c| - 1] == s[pos..j];
  }

  /** Text without a ";" after the input adds no statement: what follows
      the last ";" is never read as one. */
  lemma {:induction false} RemainderIgnored(s: string, tail: string, pos: nat)
    requires pos <= |s| && ';' !in tail
    ensures ChunksFrom(s + tail, pos) == ChunksFrom(s, pos)
    decreases |s| - pos
  {
    var st := s + tail;
    NextSemicolonPrefix(s, tail, pos);
    match NextSemicolon(s, pos)
    case None =>
    case Some(j) =>
      assert st[pos..j + 1] == s[pos..j + 1];
      RemainderIgnored(s, tail, j + 1);
  }

  lemma {:induction false} NextSemicolonPrefix(s: string, tail: string, pos: nat)
    requires pos <= |s| && ';' !in tail
    ensures NextSemicolon(s + tail, pos) == NextSemicolon(s, pos)
    decreases |s + tail| - pos
  {
    var st := s + tail;
    if pos < |s| {
      assert st[pos] == s[pos];
      if s[pos] != ';' {
        NextSemicolonPrefix(s, tail, pos + 1);
      }
    } else {
      forall k | pos <= k < |st|
        ensures st[k] != ';'
      {
        assert st[k] == tail[k - |s|];
      }
      NextSemicolonFirst(st, pos);
    }
  }

  /** The bufio.Reader over the input, as Source uses it. */
  class StatementReader {
    const input: string
    /** How much of the input has been read. */
    var pos: nat

    ghost predicate Valid()
      reads this
    {
      pos <= |input|
    }

    /** The statements not read yet. */
    ghost function Pending(): (r: seq<string>)
      reads this
      requires Valid()
    {
      ChunksFrom(input, pos)
    }

    constructor (input: string)
      ensures Valid() && this.input == input && pos == 0
    {
      this.input := input;
      pos := 0;
    }

    /** ReadString(';'): the text up to and including the next ";", or, with
        io.EOF, the rest of the input when there is no ";" left. */
    method ReadString() returns (line: string, eof: bool)
      requires Valid()
      modifies this
      ensures Valid()
      ensures !eof ==> old(Pending()) != [] && line == old(Pending())[0] && Pending() == old(Pending())[1..]
      ensures eof ==> old(Pending()) == [] && Pending() == [] && line == input[old(pos)..] && pos == |input|
    {
      NextSemicolonFirst(input, pos);
      var j := pos;
      while j < |input| && input[j] != ';'
        invariant pos <= j <= |input|
        invariant forall k :: pos <= k < j ==> input[k] != ';'
      {
        j := j + 1;
      }
      if j == |input| {
        line := input[pos..];
        pos := |input|;
        eof := true;
      } else {
        assert NextSemicolon(input, pos) == Some(j);
        line := input[pos..j + 1];
        pos := j + 1;
        eof := false;
      }
    }
  }

  // ---- batching INSERT statements ----

  const InsertInto := "INSERT INTO"

  /** The statements as trim leaves them. */
  function TrimAll(cs: seq<string>): (ds: seq<string>)
    ensures |ds| == |cs|
  {
    if cs == [] then [] else [Trim(cs[0])] + TrimAll(cs[1..])
  }

  /** Each statement read is trimmed on its own, in place. */
  lemma {:induction false} TrimAllElements(cs: seq<string>)
    ensures forall k :: 0 <= k < |cs| ==> TrimAll(cs)[k] == Trim(cs[k])
    decreases |cs|
  {
    if cs != [] {
      TrimAllElements(cs[1..]);
      assert TrimAll(cs) == [Trim(cs[0])] + TrimAll(cs[1..]);
    }
  }

  /** The inner loop of Source, over trimmed statements: reads at most
      `room` more statements, keeps those that start with INSERT INTO and
      stops at the first one that does not, which it has read (and so
      consumed) but keeps nowhere. Gives the kept statements and how many
      statements were read. */
  function Gather(ds: seq<string>, room: nat): (g: (seq<string>, nat))
  {
    if room == 0 || ds == [] then ([], 0)
    else if HasPrefix(ds[0], InsertInto) then
      var g := Gather(ds[1..], room - 1);
      ([ds[0]] + g.0, 1 + g.1)
    else ([], 1)
  }

  /** One turn of Source's loop for the trimmed statements ds still to
      read: the statement it executes (or the error mergeInsert returns)
      and how many statements it reads. */
  function Step(ds: seq<string>, mergeSize: int): (r: (Result<string>, nat))
    requires ds != []
    ensures 1 <= r.1 <= |ds|
  {
    if mergeSize > 1 && HasPrefix(ds[0], InsertInto) then
      var g := Gather(ds[1..], mergeSize - 1);
      GatherShape(ds[1..], mergeSize - 1);
      (Merged([ds[0]] + g.0), 1 + g.1)
    else (Success(ds[0]), 1)
  }

  /** What Source executes from the trimmed statements ds, in order, and
      the error mergeInsert stopped it with, if any. */
  function Plan(ds: seq<string>, mergeSize: int): (p: (seq<string>, Option<Error>))
    decreases |ds|
  {
    if ds == [] then ([], None)
    else
      var st := Step(ds, mergeSize);
      match st.0
      case Failure(e) => ([], Some(e))
      case Success(q) =>
        var p := Plan(ds[st.1..], mergeSize);
        ([q] + p.0, p.1)
  }

  /** Gather keeps a prefix of the statements, each an INSERT INTO, at most
      `room` of them. It reads one more statement than it keeps exactly
      when that one is not an INSERT INTO; otherwise it stopped because the
      room or the input ran out. */
  lemma {:induction false} GatherShape(ds: seq<string>, room: nat)
    ensures var g := Gather(ds, room);
      && |g.0| <= room && g.1 <= |ds|
      && (g.1 == |g.0| || g.1 == |g.0| + 1)
      && g.0 == ds[..|g.0|]
      && (forall k :: 0 <= k < |g.0| ==> HasPrefix(g.0[k], InsertInto))
      && (g.1 == |g.0| + 1 ==> !HasPrefix(ds[|g.0|], InsertInto))
      && (g.1 == |g.0| ==> |g.0| == room || |g.0| == |ds|)
    decreases |ds|
  {
    if room > 0 && ds != [] && HasPrefix(ds[0], InsertInto) {
      GatherShape(ds[1..], room - 1);
      var g := Gather(ds[1..], room - 1);
      assert [ds[0]] + ds[1..][..|g.0|] == ds[..|g.0| + 1];
    }
  }

  // ---- executing statements ----

  /** Whether the database rejects a statement, given the statements it has
      been sent before. */
  type Rejects = (seq<string>, string) -> bool

  /** Every statement is accepted, each given those sent before it. */
  predicate Accepted(rejects: Rejects, sent: seq<string>, qs: seq<string>)
  {
    forall k :: 0 <= k < |qs| ==> !rejects(sent + qs[..k], qs[k])
  }

  /** dbWrapper.Exec over qs in order, stopping at the first statement the
      database rejects, whose error is returned. A dry run sends nothing and
      fails nothing. `last` is the error returned once every statement has
      run. Gives the statements Exec was called with and the error. */
  function Run(dryRun: bool, rejects: Rejects, sent: seq<string>, qs: seq<string>, last: Option<Error>)
    : (r: (seq<string>, Option<Error>))
    decreases |qs|
  {
    if qs == [] then ([], last)
    else if !dryRun && rejects(sent, qs[0]) then ([qs[0]], Some(ExecFailed(qs[0])))
    else
      var r := Run(dryRun, rejects, if dryRun then sent else sent + [qs[0]], qs[1..], last);
      ([qs[0]] + r.0, r.1)
  }

  const Commit: seq<string> := ["COMMIT;", "SET autocommit=1;"]

  /** What follows the statements: the commit, unless mergeInsert failed. */
  function Closing(e: Option<Error>): (r: seq<string>)
  {
    if e.None? then Commit else []
  }

  /** Everything Source would execute for a plan: the database switch,
      autocommit off, the statements and, unless mergeInsert failed, the
      commit and autocommit back on. */
  function Script(dbName: string, p: (seq<string>, Option<Error>)): (r: seq<string>)
  {
    ["USE " + dbName + ";", "SET autocommit=0;"] + p.0 + Closing(p.1)
  }

  /** Source: the statements Exec is called with, in order, and the error
      Source returns. `history` is what the database was sent before. */
  function Replay(dbName: string, input: string, mergeSize: int, dryRun: bool, rejects: Rejects, history: seq<string>)
    : (r: (seq<string>, Option<Error>))
  {
    var p := Plan(TrimAll(Chunks(input)), mergeSize);
    Run(dryRun, rejects, history, Script(dbName, p), p.1)
  }

  /** The history before statement k + 1 of qs, seen from after qs[0]. */
  lemma SentShift(sent: seq<string>, qs: seq<string>, k: nat)
    requires k < |qs| - 1
    ensures sent + qs[..k + 1] == (sent + [qs[0]]) + qs[1..][..k]
    ensures qs[k + 1] == qs[1..][k]
  {
    assert qs[..k + 1] == [qs[0]] + qs[1..][..k];
  }

  /** Statements are accepted exactly when the first one is and the others
      are after it. */
  lemma AcceptedCons(rejects: Rejects, sent: seq<string>, qs: seq<string>)
    requires qs != []
    ensures Accepted(rejects, sent, qs) <==>
      !rejects(sent, qs[0]) && Accepted(rejects, sent + [qs[0]], qs[1..])
  {
    var s1 := sent + [qs[0]];
    assert sent + qs[..0] == sent;
    if Accepted(rejects, sent, qs) {
      forall k | 0 <= k < |qs| - 1
        ensures !rejects(s1 + qs[1..][..k], qs[1..][k])
      {
        SentShift(sent, qs, k);
      }
    }
    if !rejects(sent, qs[0]) && Accepted(rejects, s1, qs[1..]) {
      forall k | 0 <= k < |qs|
        ensures !rejects(sent + qs[..k], qs[k])
      {
        if k > 0 {
          SentShift(sent, qs, k - 1);
        }
      }
    }
  }

  /** A dry run calls Exec with every statement and ends with `last`. */
  lemma {:induction false} RunDry(rejects: Rejects, sent: seq<string>, qs: seq<string>, last: Option<Error>)
    ensures Run(true, rejects, sent, qs, last) == (qs, last)
    decreases |qs|
  {
    if qs != [] {
      RunDry(rejects, sent, qs[1..], last);
      assert [qs[0]] + qs[1..] == qs;
    }
  }

  /** Exec is called with a prefix of the statements. A run the database
      accepts throughout calls it with all of them and ends with `last`;
      otherwise the run ends at the first statement the database rejects,
      after all those before it were accepted, and returns that statement's
      error. */
  lemma {:induction false} RunOutcome(rejects: Rejects, sent: seq<string>, qs: seq<string>, last: Option<Error>)
    ensures var r := Run(false, rejects, sent, qs, last);
      && |r.0| <= |qs| && r.0 == qs[..|r.0|]
      && (Accepted(rejects, sent, qs) ==> r == (qs, last))
      && (!Accepted(rejects, sent, qs) ==>
            var n := |r.0| - 1;
            && 0 <= n < |qs|
            && Accepted(rejects, sent, qs[..n])
            && rejects(sent + qs[..n], qs[n])
            && r.1 == Some(ExecFailed(qs[n])))
    decreases |qs|
  {
    if qs != [] {
      AcceptedCons(rejects, sent, qs);
      if !rejects(sent, qs[0]) {
        RunOutcomeStep(rejects, sent, qs, last);
      } else {
        assert qs[..0] == [];
        assert sent + qs[..0] == sent;
      }
    }
  }

  /** RunOutcome when the first statement is accepted. */
  lemma {:induction false} RunOutcomeStep(rejects: Rejects, sent: seq<string>, qs: seq<string>, last: Option<Error>)
    requires qs != [] && !rejects(sent, qs[0])
    ensures var r := Run(false, rejects, sent, qs, last);
      && |r.0| <= |qs| && r.0 == qs[..|r.0|]
      && (Accepted(rejects, sent, qs) ==> r == (qs, last))
      && (!Accepted(rejects, sent, qs) ==>
            var n := |r.0| - 1;
            && 0 <= n < |qs|
            && Accepted(rejects, sent, qs[..n])
            && rejects(sent + qs[..n], qs[n])
            && r.1 == Some(ExecFailed(qs[n])))
    decreases |qs|, 0
  {
    var s1 := sent + [qs[0]];
    var tl := qs[1..];
    RunOutcome(rejects, s1, tl, last);
    AcceptedCons(rejects, sent, qs);
    var r1 := Run(false, rejects, s1, tl, last);
    assert Run(false, rejects, sent, qs, last) == ([qs[0]] + r1.0, r1.1);
    assert [qs[0]] + tl[..|r1.0|] == qs[..|r1.0| + 1];
    if Accepted(rejects, s1, tl) {
      assert [qs[0]] + tl == qs;
    } else {
      var n := |r1.0| - 1;
      var pre := qs[..n + 1];
      assert pre[0] == qs[0] && pre[1..] == tl[..n];
      AcceptedCons(rejects, sent, pre);
      SentShift(sent, qs, n);
    }
  }

  /** The only error the plan can stop with is mergeInsert's missing
      VALUES, and only when statements are merged. */
  lemma {:induction false} PlanErrors(ds: seq<string>, mergeSize: int)
    ensures Plan(ds, mergeSize).1.Some? ==> Plan(ds, mergeSize).1 == Some(MissingValues) && mergeSize > 1
    decreases |ds|
  {
    if ds != [] {
      var st := Step(ds, mergeSize);
      if st.0.Success? {
        PlanErrors(ds[st.1..], mergeSize);
      } else {
        var g := Gather(ds[1..], mergeSize - 1);
        MergeFailures([ds[0]] + g.0);
      }
    }
  }

  /** Without merging (a merge size of at most 1), Source executes every
      trimmed statement in order and mergeInsert never fails. */
  lemma {:induction false} NoMergePlan(ds: seq<string>, mergeSize: int)
    requires mergeSize <= 1
    ensures Plan(ds, mergeSize) == (ds, None)
    decreases |ds|
  {
    if ds != [] {
      NoMergePlan(ds[1..], mergeSize);
      assert [ds[0]] + ds[1..] == ds;
    }
  }

  /** With merging on and an INSERT INTO first, Source merges a batch of
      the first n statements, 1 <= n <= mergeSize, all of them INSERT INTO.
      It reads one statement more exactly when that one is not an INSERT
      INTO, and otherwise stopped at the merge size or the end of the
      input. */
  lemma StepBatch(ds: seq<string>, mergeSize: int)
    requires ds != [] && mergeSize > 1 && HasPrefix(ds[0], InsertInto)
    ensures var g := Gather(ds[1..], mergeSize - 1); var n := 1 + |g.0|; var st := Step(ds, mergeSize);
      && n <= mergeSize && n <= |ds|
      && st.0 == Merged(ds[..n])
      && (forall k :: 0 <= k < n ==> HasPrefix(ds[k], InsertInto))
      && (st.1 == n || (st.1 == n + 1 && !HasPrefix(ds[n], InsertInto)))
      && (st.1 == n ==> n == mergeSize || n == |ds|)
  {
    var g := Gather(ds[1..], mergeSize - 1);
    GatherShape(ds[1..], mergeSize - 1);
    var n := 1 + |g.0|;
    assert [ds[0]] + g.0 == ds[..n];
    assert forall k :: 1 <= k < n ==> ds[k] == g.0[k - 1];
  }

  /** With merging on, an INSERT INTO followed by a statement that is not
      one is executed on its own, less its ";" plus ";", and the statement
      after it is read but never executed. */
  lemma NonInsertSwallowed(ds: seq<string>, mergeSize: int)
    requires |ds| >= 2 && mergeSize > 1
    requires HasPrefix(ds[0], InsertInto) && !HasPrefix(ds[1], InsertInto)
    ensures Plan(ds, mergeSize) ==
      ([TrimSuffix(ds[0], ";") + ";"] + Plan(ds[2..], mergeSize).0, Plan(ds[2..], mergeSize).1)
  {
    assert Gather(ds[1..], mergeSize - 1) == ([], 1);
    assert [ds[0]] + [] == [ds[0]];
    MergeSingle(ds[0]);
  }

  /** trim keeps the last character of text that does not end with white
      space. */
  lemma TrimKeepsLast(c: string)
    requires c != [] && !IsSpace(c[|c| - 1])
    ensures Trim(c) != [] && Trim(c)[|Trim(c)| - 1] == c[|c| - 1]
  {
    var s := TrimLeftNewlines(c);
    TrimLeftNewlinesKeepsLast(c);
    assert s != [] && s[|s| - 1] == c[|c| - 1];
    TrimSpaceKeepsLast(s);
    var r := TrimSpace(s);
    assert r != [] && r[|r| - 1] == c[|c| - 1];
    assert Trim(c) == r;
  }

  /** trim keeps the ";" that ends a statement. */
  lemma TrimKeepsSemicolon(c: string)
    requires c != [] && c[|c| - 1] == ';'
    ensures HasSuffix(Trim(c), ";")
  {
    TrimKeepsLast(c);
    var r := Trim(c);
    assert r != [] && r[|r| - 1] == ';';
    LastIsSuffix(r, ';');
  }

  /** Statements that end with ";" still do once trimmed. */
  lemma {:induction false} TrimAllKeepsSemicolons(cs: seq<string>)
    requires forall c :: c in cs ==> c != [] && c[|c| - 1] == ';'
    ensures forall d :: d in TrimAll(cs) ==> HasSuffix(d, ";")
    decreases |cs|
  {
    if cs != [] {
      assert cs[0] in cs;
      TrimKeepsSemicolon(cs[0]);
      assert forall c :: c in cs[1..] ==> c in cs;
      TrimAllKeepsSemicolons(cs[1..]);
    }
  }

  /** Every statement Source reads ends with ";" once trimmed, so a lone
      INSERT INTO that mergeInsert is given comes back unchanged
      (Merge.MergeSingle). */
  lemma StatementsEndWithSemicolon(input: string)
    ensures forall d :: d in TrimAll(Chunks(input)) ==> HasSuffix(d, ";")
  {
    ChunkShape(input, 0);
    TrimAllKeepsSemicolons(Chunks(input));
  }

  /** Text after the last ";" is never executed. */
  lemma RemainderDropped(dbName: string, input: string, tail: string, mergeSize: int,
                         dryRun: bool, rejects: Rejects, history: seq<string>)
    requires ';' !in tail
    ensures Replay(dbName, input + tail, mergeSize, dryRun, rejects, history)
         == Replay(dbName, input, mergeSize, dryRun, rejects, history)
  {
    RemainderIgnored(input, tail, 0);
  }

  /** For any plan: Source always starts with the database switch; Exec
      is called with a prefix of the script; Source returns no error exactly
      when mergeInsert did not fail and the database accepted every
      statement (or the run was dry), and then Exec was called with the
      whole script: autocommit off first, the commit and autocommit back on
      last. */
  lemma ScriptBrackets(dbName: string, p: (seq<string>, Option<Error>), dryRun: bool, rejects: Rejects, history: seq<string>)
    ensures var sc := Script(dbName, p);
      var r := Run(dryRun, rejects, history, sc, p.1);
      && 1 <= |r.0| <= |sc| && r.0 == sc[..|r.0|] && r.0[0] == "USE " + dbName + ";"
      && (r.1.None? <==> p.1.None? && (dryRun || Accepted(rejects, history, sc)))
      && (r.1.None? ==> r.0 == sc && |r.0| >= 4 && r.0[1] == "SET autocommit=0;" && r.0[|r.0| - 2..] == Commit)
  {
    var sc := Script(dbName, p);
    if dryRun {
      RunDry(rejects, history, sc, p.1);
    } else {
      RunOutcome(rejects, history, sc, p.1);
    }
    assert sc[0] == "USE " + dbName + ";" && sc[1] == "SET autocommit=0;";
    if p.1.None? {
      assert sc[|sc| - 2..] == Commit;
    }
  }

  /** For a plan whose own error is mergeInsert's: when the database
      rejects a statement, it is the last one Exec was called with, every
      one before it was accepted, and the run was not dry. */
  lemma ScriptFirstFailure(dbName: string, p: (seq<string>, Option<Error>), dryRun: bool, rejects: Rejects, history: seq<string>)
    requires p.1 == None || p.1 == Some(MissingValues)
    ensures var r := Run(dryRun, rejects, history, Script(dbName, p), p.1);
      r.1.Some? && r.1.value.ExecFailed? ==>
        var n := |r.0| - 1;
        && !dryRun && 0 <= n
        && r.1.value.query == r.0[n]
        && Accepted(rejects, history, r.0[..n])
        && rejects(history + r.0[..n], r.0[n])
  {
    var sc := Script(dbName, p);
    if dryRun {
      RunDry(rejects, history, sc, p.1);
    } else {
      RunOutcome(rejects, history, sc, p.1);
      var r := Run(false, rejects, history, sc, p.1);
      if !Accepted(rejects, history, sc) {
        var n := |r.0| - 1;
        assert r.0[..n] == sc[..n];
      }
    }
  }

  /** A dry run over trimmed statements ds calls Exec with the whole
      script. It reaches the commit unless mergeInsert fails, which only a
      missing VALUES can cause; with no merging it executes every statement
      and commits. */
  lemma DryRunReachesCommit(dbName: string, ds: seq<string>, mergeSize: int, rejects: Rejects, history: seq<string>)
    ensures var p := Plan(ds, mergeSize);
      var r := Run(true, rejects, history, Script(dbName, p), p.1);
      && r == (Script(dbName, p), p.1)
      && (r.1.None? ==> r.0[|r.0| - 2..] == Commit)
      && (r.1.Some? ==> r.1 == Some(MissingValues) && mergeSize > 1)
      && (mergeSize <= 1 ==>
            r == (["USE " + dbName + ";", "SET autocommit=0;"] + ds + Commit, None))
  {
    var p := Plan(ds, mergeSize);
    var sc := Script(dbName, p);
    RunDry(rejects, history, sc, p.1);
    PlanErrors(ds, mergeSize);
    if mergeSize <= 1 {
      NoMergePlan(ds, mergeSize);
    }
    if p.1.None? {
      assert sc[|sc| - 2..] == Commit;
    }
  }

  // ---- the database wrapper and the Source loop ----

  /** One Exec call of Run: the first statement is rejected, or the rest
      runs after it. */
  lemma RunCons(dryRun: bool, rejects: Rejects, sent: seq<string>, q: string, rest: seq<string>, last: Option<Error>)
    ensures Run(dryRun, rejects, sent, [q] + rest, last) ==
      if !dryRun && rejects(sent, q) then ([q], Some(ExecFailed(q)))
      else
        var r := Run(dryRun, rejects, if dryRun then sent else sent + [q], rest, last);
        ([q] + r.0, r.1)
  {
    assert ([q] + rest)[0] == q && ([q] + rest)[1..] == rest;
  }

  /** RunCons for the pair (Exec calls so far, outcome) Source tracks. */
  lemma RunExec(dryRun: bool, rejects: Rejects, sent: seq<string>, calls: seq<string>,
                q: string, rest: seq<string>, last: Option<Error>)
    ensures var r := Run(dryRun, rejects, sent, [q] + rest, last);
      var r1 := Run(dryRun, rejects, if dryRun then sent else sent + [q], rest, last);
      && (!dryRun && rejects(sent, q) ==> (calls + r.0, r.1) == (calls + [q], Some(ExecFailed(q))))
      && (!(!dryRun && rejects(sent, q)) ==> (calls + r.0, r.1) == ((calls + [q]) + r1.0, r1.1))
  {
    RunCons(dryRun, rejects, sent, q, rest, last);
    var r1 := Run(dryRun, rejects, if dryRun then sent else sent + [q], rest, last);
    assert calls + ([q] + r1.0) == (calls + [q]) + r1.0;
  }

  /** The run of a script, seen as Source starts it: no Exec call yet, then
      USE, then SET autocommit=0;, then the rest. */
  lemma ReplayOpens(dbName: string, p: (seq<string>, Option<Error>), dryRun: bool, rejects: Rejects, history: seq<string>)
    ensures var sc := ["USE " + dbName + ";"] + (["SET autocommit=0;"] + (p.0 + Closing(p.1)));
      var r := Run(dryRun, rejects, history, Script(dbName, p), p.1);
      r == ([] + Run(dryRun, rejects, history, sc, p.1).0, Run(dryRun, rejects, history, sc, p.1).1)
  {
    assert Script(dbName, p) == ["USE " + dbName + ";"] + (["SET autocommit=0;"] + (p.0 + Closing(p.1)));
    var r := Run(dryRun, rejects, history, Script(dbName, p), p.1);
    assert [] + r.0 == r.0;
  }

  /** The trimmed statements start with the first one trimmed. */
  lemma TrimAllCons(cs: seq<string>)
    requires cs != []
    ensures TrimAll(cs) != [] && TrimAll(cs)[0] == Trim(cs[0]) && TrimAll(cs)[1..] == TrimAll(cs[1..])
  {
    assert TrimAll(cs) == [Trim(cs[0])] + TrimAll(cs[1..]);
  }

  /** Gather over statements that start with an INSERT INTO, d, keeps it
      and goes on after it, with one less room. */
  lemma GatherCons(kept: seq<string>, used: nat, ds: seq<string>, room: nat,
                   d: string, ds1: seq<string>, room1: nat)
    requires ds != [] && d == ds[0] && ds1 == ds[1..] && room == room1 + 1 && HasPrefix(d, InsertInto)
    ensures kept + Gather(ds, room).0 == (kept + [d]) + Gather(ds1, room1).0
    ensures used + Gather(ds, room).1 == (used + 1) + Gather(ds1, room1).1
  {
    var g := Gather(ds1, room1);
    assert Gather(ds, room) == ([d] + g.0, 1 + g.1);
    assert kept + ([d] + g.0) == (kept + [d]) + g.0;
  }

  /** Gather stops, keeping nothing more, when no statement is left, no
      room is left or the next statement is not an INSERT INTO; only in the
      last case is that statement read. Seen from the start: all kept
      statements are in, and what is left to read is what follows. */
  lemma GatherEnd(ds: seq<string>, i: nat, rest: seq<string>, room: nat, kept: seq<string>,
                  g: (seq<string>, nat))
    requires i <= |ds| && rest == ds[i..]
    requires g.0 == kept + Gather(rest, room).0 && g.1 == i + Gather(rest, room).1
    requires rest == [] || room == 0 || !HasPrefix(rest[0], InsertInto)
    ensures g.0 == kept && g.1 <= |ds|
    ensures ds[g.1..] == if rest != [] && room > 0 then rest[1..] else rest
  {
    assert kept + [] == kept;
    if rest != [] && room > 0 {
      assert ds[i + 1..] == rest[1..];
    }
  }

  /** A turn of Source's loop that executes q: the rest of the run is the
      Exec call for q and, unless the database rejects it, the run of the
      statements after it. */
  lemma TurnExecutes(dryRun: bool, rejects: Rejects, sent: seq<string>, calls: seq<string>,
                     ds: seq<string>, mergeSize: int, q: string)
    requires ds != [] && Step(ds, mergeSize).0 == Success(q)
    ensures var p := Plan(ds, mergeSize);
      var p1 := Plan(ds[Step(ds, mergeSize).1..], mergeSize);
      var r := Run(dryRun, rejects, sent, p.0 + Closing(p.1), p.1);
      var sent1 := if dryRun then sent else sent + [q];
      var r1 := Run(dryRun, rejects, sent1, p1.0 + Closing(p1.1), p1.1);
      && (!dryRun && rejects(sent, q) ==> (calls + r.0, r.1) == (calls + [q], Some(ExecFailed(q))))
      && (!(!dryRun && rejects(sent, q)) ==> (calls + r.0, r.1) == ((calls + [q]) + r1.0, r1.1))
  {
    var p1 := Plan(ds[Step(ds, mergeSize).1..], mergeSize);
    var rest := p1.0 + Closing(p1.1);
    assert ([q] + p1.0) + Closing(p1.1) == [q] + rest;
    RunExec(dryRun, rejects, sent, calls, q, rest, p1.1);
  }

  /** A turn of Source's loop whose mergeInsert fails ends the run with
      that error and no further Exec call. */
  lemma TurnFails(dryRun: bool, rejects: Rejects, sent: seq<string>, calls: seq<string>,
                  ds: seq<string>, mergeSize: int, e: Error)
    requires ds != [] && Step(ds, mergeSize).0 == Failure(e)
    ensures var p := Plan(ds, mergeSize);
      var r := Run(dryRun, rejects, sent, p.0 + Closing(p.1), p.1);
      (calls + r.0, r.1) == (calls, Some(e))
  {
    assert calls + [] == calls;
  }

  /** dbWrapper: Exec sends a statement to the database or, in a dry run,
      does nothing and succeeds. The database is modelled by `rejects` and
      the statements it has been sent. */
  class DbWrapper {
    const dryRun: bool
    const rejects: Rejects
    /** What the database had been sent before the wrapper was made. */
    const history: seq<string>
    /** Every statement Exec was called with, in order (what the debug
        option logs). */
    var calls: seq<string>
    /** Every statement the database was sent, in order. */
    var sent: seq<string>

    ghost predicate Valid()
      reads this
    {
      sent == history + (if dryRun then [] else calls)
    }

    constructor (dryRun: bool, rejects: Rejects, history: seq<string>)
      ensures Valid() && this.dryRun == dryRun && this.rejects == rejects && this.history == history
      ensures calls == [] && sent == history
    {
      this.dryRun := dryRun;
      this.rejects := rejects;
      this.history := history;
      calls := [];
      sent := history;
    }

    /** Exec: a dry run returns no error without sending anything; otherwise
        the statement goes to the database, which may reject it. */
    method Exec(query: string) returns (err: Option<Error>)
      requires Valid()
      modifies this
      ensures Valid() && calls == old(calls) + [query]
      ensures sent == if dryRun then old(sent) else old(sent) + [query]
      ensures err == if !dryRun && rejects(old(sent), query) then Some(ExecFailed(query)) else None
    {
      calls := calls + [query];
      if dryRun {
        return None;
      }
      var rejected := rejects(sent, query);
      sent := sent + [query];
      assert history + old(calls) + [query] == history + calls;
      err := if rejected then Some(ExecFailed(query)) else None;
    }
  }

  /** What Source will still call Exec with and return, from the statements
      still to read: the calls made so far, then the rest of the run. */
  ghost function Remaining(db: DbWrapper, r: StatementReader, mergeSize: int): (seq<string>, Option<Error>)
    reads db, r
    requires r.Valid()
  {
    var p := Plan(TrimAll(r.Pending()), mergeSize);
    var rest := Run(db.dryRun, db.rejects, db.sent, p.0 + Closing(p.1), p.1);
    (db.calls + rest.0, rest.1)
  }

  /** ReadString(';') then trim, as both loops of Source do: the next
      statement trimmed, or `eof` when no ";"-terminated statement is
      left. */
  method ReadStatement(r: StatementReader) returns (dml: string, eof: bool)
    requires r.Valid()
    modifies r
    ensures r.Valid()
    ensures eof <==> old(r.Pending()) == []
    ensures eof ==> r.Pending() == []
    ensures !eof ==> var ds := TrimAll(old(r.Pending()));
      ds != [] && dml == ds[0] && TrimAll(r.Pending()) == ds[1..]
  {
    ghost var pending := r.Pending();
    var line;
    line, eof := r.ReadString();
    if eof {
      // the text after the last ";", which Source drops
      return "", true;
    }
    TrimAllCons(pending);
    dml := Trim(line);
  }

  /** The inner loop of Source: after the INSERT INTO `first`, reads up to
      mergeSize - 1 more statements, keeping them while they are INSERT
      INTO; the first that is not ends the batch and is dropped. */
  method ReadBatch(r: StatementReader, first: string, mergeSize: int) returns (insertSQLs: seq<string>)
    requires r.Valid() && mergeSize > 1
    modifies r
    ensures r.Valid()
    ensures var ds := TrimAll(old(r.Pending())); var g := Gather(ds, mergeSize - 1);
      insertSQLs == [first] + g.0 && g.1 <= |ds| && TrimAll(r.Pending()) == ds[g.1..]
  {
    ghost var ds := TrimAll(r.Pending());
    ghost var rest := ds;
    ghost var kept: seq<string> := [];
    ghost var room: nat := mergeSize - 1;
    ghost var g := Gather(ds, room);
    insertSQLs := [first];
    var i := 0;
    assert ds[0..] == ds;
    while i < mergeSize - 1
      invariant r.Valid() && 0 <= i <= mergeSize - 1 && i <= |ds| && room == mergeSize - 1 - i
      invariant rest == ds[i..] && TrimAll(r.Pending()) == rest && insertSQLs == [first] + kept
      invariant g.0 == kept + Gather(rest, room).0
      invariant g.1 == i + Gather(rest, room).1
    {
      var dml, eof := ReadStatement(r);
      if eof {
        GatherEnd(ds, i, rest, room, kept, g);
        return;
      }
      if !HasPrefix(dml, InsertInto) {
        GatherEnd(ds, i, rest, room, kept, g);
        return;
      }
      ghost var rest1 := rest[1..];
      ghost var room1: nat := room - 1;
      GatherCons(kept, i, rest, room, dml, rest1, room1);
      assert ds[i + 1..] == rest1;
      insertSQLs := insertSQLs + [dml];
      kept := kept + [dml];
      rest := rest1;
      room := room1;
      i := i + 1;
    }
    GatherEnd(ds, i, rest, room, kept, g);
  }

  /** One turn of Source's loop up to the Exec call: the next statement,
      trimmed, merged with the INSERT INTO statements after it when merging
      is on and it is one. `eof` when no ";"-terminated statement is left;
      `q` is then the empty statement, which no caller executes. */
  method NextStatement(r: StatementReader, mergeSize: int) returns (eof: bool, q: Result<string>)
    requires r.Valid()
    modifies r
    ensures r.Valid()
    ensures eof <==> old(r.Pending()) == []
    ensures eof ==> r.Pending() == [] && q == Success("")
    ensures !eof ==> var ds := TrimAll(old(r.Pending())); var st := Step(ds, mergeSize);
      q == st.0 && TrimAll(r.Pending()) == ds[st.1..]
  {
    ghost var ds := TrimAll(r.Pending());
    var dml;
    dml, eof := ReadStatement(r);
    if eof {
      return true, Success("");
    }
    if mergeSize > 1 && HasPrefix(dml, InsertInto) {
      var insertSQLs := ReadBatch(r, dml, mergeSize);
      q := MergeInsert(insertSQLs);
      ghost var g := Gather(ds[1..], mergeSize - 1);
      assert ds[1..][g.1..] == ds[1 + g.1..];
    } else {
      q := Success(dml);
    }
  }

  /** One turn of the loop of Source: reads the next statement and executes
      it. `stop` when the loop ends: the input has no ";"-terminated
      statement left (with no error), mergeInsert failed or the database
      rejected the statement. */
  method Turn(db: DbWrapper, r: StatementReader, mergeSize: int) returns (stop: bool, err: Option<Error>)
    requires db.Valid() && r.Valid()
    modifies db, r
    ensures db.Valid() && r.Valid()
    ensures !stop ==> err.None? && |r.Pending()| < old(|r.Pending()|)
    ensures stop && err.None? ==> old(r.Pending()) == [] && r.Pending() == [] && unchanged(db)
    ensures err.Some? ==> (db.calls, err) == old(Remaining(db, r, mergeSize))
    ensures !stop ==> Remaining(db, r, mergeSize) == old(Remaining(db, r, mergeSize))
  {
    ghost var ds := TrimAll(r.Pending());
    var eof, q := NextStatement(r, mergeSize);
    if eof {
      return true, None;
    }
    if q.Failure? {
      TurnFails(db.dryRun, db.rejects, db.sent, db.calls, ds, mergeSize, q.error);
      return true, Some(q.error);
    }
    TurnExecutes(db.dryRun, db.rejects, db.sent, db.calls, ds, mergeSize, q.value);
    err := db.Exec(q.value);
    stop := err.Some?;
  }

  /** The loop of Source: executes statement after statement until the
      input has no ";"-terminated statement left, mergeInsert fails or the
      database rejects one. */
  method RunStatements(db: DbWrapper, r: StatementReader, mergeSize: int) returns (err: Option<Error>)
    requires db.Valid() && r.Valid()
    modifies db, r
    ensures db.Valid() && r.Valid()
    ensures err.Some? ==> (db.calls, err) == old(Remaining(db, r, mergeSize))
    ensures err.None? ==> r.Pending() == [] && Remaining(db, r, mergeSize) == old(Remaining(db, r, mergeSize))
  {
    var stop := false;
    err := None;
    while !stop
      invariant db.Valid() && r.Valid()
      invariant !stop ==> err.None? && Remaining(db, r, mergeSize) == old(Remaining(db, r, mergeSize))
      invariant stop && err.None? ==> r.Pending() == [] && Remaining(db, r, mergeSize) == old(Remaining(db, r, mergeSize))
      invariant err.Some? ==> (db.calls, err) == old(Remaining(db, r, mergeSize))
      decreases !stop, |r.Pending()|
    {
      stop, err := Turn(db, r, mergeSize);
    }
  }

  /** Source: switches to the database, turns autocommit off, executes the
      statements of the input and commits. `history` is what the database
      was sent before. */
  method Source(dbName: string, input: string, mergeSize: int, dryRun: bool, rejects: Rejects, history: seq<string>)
    returns (err: Option<Error>, db: DbWrapper)
    ensures fresh(db) && db.Valid() && db.dryRun == dryRun && db.rejects == rejects && db.history == history
    ensures (db.calls, err) == Replay(dbName, input, mergeSize, dryRun, rejects, history)
  {
    db := new DbWrapper(dryRun, rejects, history);
    ghost var p := Plan(TrimAll(Chunks(input)), mergeSize);
    ghost var rest := p.0 + Closing(p.1);
    ghost var goal := Replay(dbName, input, mergeSize, dryRun, rejects, history);
    ReplayOpens(dbName, p, dryRun, rejects, history);
    RunExec(dryRun, rejects, db.sent, db.calls, "USE " + dbName + ";", ["SET autocommit=0;"] + rest, p.1);
    err := db.Exec("USE " + dbName + ";");
    if err.Some? {
      return;
    }
    var r := new StatementReader(input);
    RunExec(dryRun, rejects, db.sent, db.calls, "SET autocommit=0;", rest, p.1);
    err := db.Exec("SET autocommit=0;");
    if err.Some? {
      return;
    }
    assert goal == Remaining(db, r, mergeSize);
    err := RunStatements(db, r, mergeSize);
    if err.Some? {
      return;
    }
    assert TrimAll(r.Pending()) == [] && Plan([], mergeSize) == ([], None);
    assert [] + Commit == Commit;
    err := Finish(db);
  }

  /** The end of Source: COMMIT; then SET autocommit=1;, as far as the
      database accepts them. */
  method Finish(db: DbWrapper) returns (err: Option<Error>)
    requires db.Valid()
    modifies db
    ensures db.Valid()
    ensures (db.calls, err) == old((db.calls + Run(db.dryRun, db.rejects, db.sent, Commit, None).0,
                                    Run(db.dryRun, db.rejects, db.sent, Commit, None).1))
  {
    assert Commit == ["COMMIT;"] + (["SET autocommit=1;"] + []);
    RunExec(db.dryRun, db.rejects, db.sent, db.calls, "COMMIT;", ["SET autocommit=1;"] + [], None);
    err := db.Exec("COMMIT;");
    if err.Some? {
      return;
    }
    RunExec(db.dryRun, db.rejects, db.sent, db.calls, "SET autocommit=1;", [], None);
    err := db.Exec("SET autocommit=1;");
    assert db.calls + [] == db.calls;
  }
}
