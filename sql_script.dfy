/** execute_sql_file: a SQL script is cut at every ';', each piece is stripped
    of surrounding whitespace, and every piece that is left non-empty and does
    not start with a comment marker (a double dash or slash-star) is sent to the database in
    order. A statement the database rejects is reported and the rest still run.
    Reading the file is left to the caller (the script is a parameter) and the
    database's verdict on each statement is a parameter too. */
module SqlScript {
  import opened Text

  /** A stripped piece execute_sql_file does not send: empty, or starting with a comment marker. */
  predicate Skipped(statement: string)
  {
    statement == [] || StartsWith(statement, "--") || StartsWith(statement, "/*")
  }

  /** What one piece contributes: its stripped text, unless that is skipped. */
  function KeptPiece(piece: string): seq<string>
  {
    var statement := Strip(piece);
    if Skipped(statement) then [] else [statement]
  }

  /** The contributions of the pieces, concatenated in order. */
  function FlatMap<T, U>(xs: seq<T>, f: T -> seq<U>): seq<U>
    decreases |xs|
  {
    if xs == [] then [] else FlatMap(xs[..|xs| - 1], f) + f(xs[|xs| - 1])
  }

  lemma {:induction false} FlatMapConcat<T, U>(xs: seq<T>, ys: seq<T>, f: T -> seq<U>)
    ensures FlatMap(xs + ys, f) == FlatMap(xs, f) + FlatMap(ys, f)
    decreases |ys|
  {
    if ys == [] {
      assert xs + ys == xs;
    } else {
      var init, last := ys[..|ys| - 1], ys[|ys| - 1];
      var whole := xs + ys;
      assert whole[..|whole| - 1] == xs + init;
      assert whole[|whole| - 1] == last;
      calc {
        FlatMap(whole, f);
        FlatMap(xs + init, f) + f(last);
        { FlatMapConcat(xs, init, f); }
        FlatMap(xs, f) + FlatMap(init, f) + f(last);
        FlatMap(xs, f) + (FlatMap(init, f) + f(last));
        FlatMap(xs, f) + FlatMap(ys, f);
      }
    }
  }

  /** The statements sent for a list of pieces, in order. */
  function Kept(pieces: seq<string>): seq<string>
  {
    FlatMap(pieces, KeptPiece)
  }

  /** Each statement sent is the stripped text of one of the pieces, and is not skipped. */
  lemma {:induction false} KeptComesFromPieces(pieces: seq<string>)
    ensures |Kept(pieces)| <= |pieces|
    ensures forall k :: 0 <= k < |Kept(pieces)| ==>
      !Skipped(Kept(pieces)[k]) && exists i :: 0 <= i < |pieces| && Kept(pieces)[k] == Strip(pieces[i])
    decreases |pieces|
  {
    if pieces != [] {
      var init := pieces[..|pieces| - 1];
      KeptComesFromPieces(init);
      var before := Kept(init);
      forall k | 0 <= k < |before|
        ensures exists i :: 0 <= i < |pieces| && before[k] == Strip(pieces[i])
      {
        var i :| 0 <= i < |init| && before[k] == Strip(init[i]);
        assert pieces[i] == init[i];
      }
    }
  }

  /** The statements a script runs. */
  function Statements(script: string): (statements: seq<string>)
    ensures |statements| <= |Split(script, ';')|
    ensures forall k :: 0 <= k < |statements| ==> !Skipped(statements[k])
  {
    KeptComesFromPieces(Split(script, ';'));
    Kept(Split(script, ';'))
  }

  /** The statements the database rejects, each judged with the statements sent
      before it; a rejection does not stop the statements after it. */
  function Failures(statements: seq<string>, rejects: (seq<string>, string) -> bool): (failed: seq<string>)
    ensures |failed| <= |statements|
    ensures forall k :: 0 <= k < |failed| ==> failed[k] in statements
    decreases |statements|
  {
    if statements == [] then []
    else
      var init := statements[..|statements| - 1];
      var last := statements[|statements| - 1];
      var before := Failures(init, rejects);
      assert forall k :: 0 <= k < |before| ==> before[k] in init ==> before[k] in statements;
      if rejects(init, last) then before + [last] else before
  }

  /** execute_sql_file(cursor, filepath) on the script text: every kept
      statement is executed once, in order, and the rejected ones are reported. */
  method ExecuteSqlScript(script: string, rejects: (seq<string>, string) -> bool) returns (executed: seq<string>, reported: seq<string>)
    ensures executed == Statements(script)
    ensures reported == Failures(executed, rejects)
  {
    var statements := Split(script, ';');
    executed, reported := [], [];
    for i := 0 to |statements|
      invariant executed == Kept(statements[..i])
      invariant reported == Failures(executed, rejects)
    {
      var statement := statements[i];
      statement := Strip(statement);
      assert statements[..i + 1][..i] == statements[..i];
      assert KeptPiece(statements[i]) == if Skipped(statement) then [] else [statement];
      if statement != [] && !StartsWith(statement, "--") && !StartsWith(statement, "/*") {
        var rejected := rejects(executed, statement);
        assert (executed + [statement])[..|executed|] == executed;
        executed := executed + [statement];
        if rejected {
          reported := reported + [statement];
        }
      }
    }
    assert statements[..|statements|] == statements;
  }

  // ---------------------------------------------------------------------------
  // Properties

  /** Every executed statement is one stripped piece of the script: no
      surrounding whitespace, not empty, not a comment, and free of ';'. */
  lemma ExecutedStatementsAreClean(script: string)
    ensures forall k :: 0 <= k < |Statements(script)| ==>
      var s := Statements(script)[k];
      s != [] && !StartsWith(s, "--") && !StartsWith(s, "/*") && ';' !in s && Strip(s) == s
  {
    var pieces := Split(script, ';');
    var statements := Statements(script);
    KeptComesFromPieces(pieces);
    forall k | 0 <= k < |statements|
      ensures ';' !in statements[k] && Strip(statements[k]) == statements[k]
    {
      var i :| 0 <= i < |pieces| && statements[k] == Strip(pieces[i]);
      SplitPiecesAvoid(script, ';');
      StripShape(pieces[i]);
      StripIdempotent(pieces[i]);
    }
  }

  lemma KeptConcat(xs: seq<string>, ys: seq<string>)
    ensures Kept(xs + ys) == Kept(xs) + Kept(ys)
  {
    FlatMapConcat(xs, ys, KeptPiece);
  }

  lemma {:induction false} SplitConcat(a: string, b: string, d: char)
    ensures Split(a + [d] + b, d) == Split(a, d) + Split(b, d)
    decreases |a|
  {
    if |a| == 0 {
      assert a + [d] + b == [d] + b;
      SplitAtSeparator(b, d);
    } else {
      SplitConcat(a[1..], b, d);
      assert a == [a[0]] + a[1..];
      if a[0] == d {
        SplitConcatSeparator(a[1..], b, d);
      } else {
        SplitConcatOther(a[0], a[1..], b, d);
      }
    }
  }

  lemma SplitConcatSeparator(t: string, b: string, d: char)
    requires Split(t + [d] + b, d) == Split(t, d) + Split(b, d)
    ensures Split([d] + t + [d] + b, d) == Split([d] + t, d) + Split(b, d)
  {
    assert [d] + t + [d] + b == [d] + (t + [d] + b);
    SplitAtSeparator(t + [d] + b, d);
    SplitAtSeparator(t, d);
    PrependFirst("", Split(t, d), Split(b, d));
  }

  lemma SplitConcatOther(c: char, t: string, b: string, d: char)
    requires c != d
    requires Split(t + [d] + b, d) == Split(t, d) + Split(b, d)
    ensures Split([c] + t + [d] + b, d) == Split([c] + t, d) + Split(b, d)
  {
    assert [c] + t + [d] + b == [c] + (t + [d] + b);
    SplitAtOther(c, t + [d] + b, d);
    SplitAtOther(c, t, d);
    ExtendFirst([c], Split(t, d), Split(b, d));
  }

  /** Prefixing the first piece commutes with appending more pieces. */
  lemma ExtendFirst(p: string, left: seq<string>, right: seq<string>)
    requires |left| >= 1
    ensures [p + (left + right)[0]] + (left + right)[1..] == ([p + left[0]] + left[1..]) + right
  {
    assert (left + right)[1..] == left[1..] + right;
  }

  lemma PrependFirst(p: string, left: seq<string>, right: seq<string>)
    ensures [p] + (left + right) == ([p] + left) + right
  {
  }

  /** A leading separator ends an empty first piece. */
  lemma SplitAtSeparator(t: string, d: char)
    ensures Split([d] + t, d) == [""] + Split(t, d)
  {
    assert ([d] + t)[1..] == t;
  }

  /** Any other leading character joins the first piece. */
  lemma SplitAtOther(c: char, t: string, d: char)
    requires c != d
    ensures Split([c] + t, d) == [[c] + Split(t, d)[0]] + Split(t, d)[1..]
  {
    assert ([c] + t)[1..] == t;
  }

  /** Cutting a script in two at a ';' runs the same statements, in the same
      order, as running the two halves one after the other. */
  lemma StatementsConcat(a: string, b: string)
    ensures Statements(a + ";" + b) == Statements(a) + Statements(b)
  {
    SplitConcat(a, b, ';');
    KeptConcat(Split(a, ';'), Split(b, ';'));
  }

  /** Whatever the database rejects, every statement is still executed, and
      exactly the rejected ones are reported. */
  lemma RejectionsDoNotStopTheScript(script: string, rejects: (seq<string>, string) -> bool)
    ensures |Failures(Statements(script), rejects)| <= |Statements(script)|
    ensures (forall h, s :: !rejects(h, s)) ==> Failures(Statements(script), rejects) == []
    ensures (forall h, s :: rejects(h, s)) ==> Failures(Statements(script), rejects) == Statements(script)
  {
    AllOrNothingFailures(Statements(script), rejects);
  }

  lemma {:induction false} AllOrNothingFailures(statements: seq<string>, rejects: (seq<string>, string) -> bool)
    ensures (forall h, s :: !rejects(h, s)) ==> Failures(statements, rejects) == []
    ensures (forall h, s :: rejects(h, s)) ==> Failures(statements, rejects) == statements
    decreases |statements|
  {
    if statements != [] {
      var init := statements[..|statements| - 1];
      AllOrNothingFailures(init, rejects);
      assert init + [statements[|statements| - 1]] == statements;
    }
  }

  /** A piece that opens with a comment is skipped whole, so the SQL after the
      comment's line is never run: in "--c\nX;Y" only Y runs. */
  lemma CommentSwallowsStatement()
    ensures Statements("--c\nX;Y") == ["Y"]
  {
    var comment, tail := "--c\nX", "Y";
    CommentScriptPieces();
    CommentPieceSkipped();
    var pieces := [comment, tail];
    assert pieces == [comment] + [tail];
    FlatMapConcat([comment], [tail], KeptPiece);
    assert Kept([comment]) == [] by {
      assert [comment][..0] == [];
    }
    assert Kept([tail]) == [tail] by {
      assert [tail][..0] == [];
    }
  }

  lemma CommentScriptPieces()
    ensures Split("--c\nX;Y", ';') == ["--c\nX", "Y"]
  {
    var comment, tail := "--c\nX", "Y";
    assert "--c\nX;Y" == comment + [';'] + tail;
    SplitAtFirst(comment, ';', tail);
    SplitWithoutSeparator(tail, ';');
  }

  lemma CommentPieceSkipped()
    ensures KeptPiece("--c\nX") == [] && KeptPiece("Y") == ["Y"]
  {
    var comment, tail := "--c\nX", "Y";
    assert TrimStart(comment) == comment;
    assert TrimEnd(comment) == comment;
    assert StartsWith(comment, "--");
    assert TrimStart(tail) == tail && TrimEnd(tail) == tail;
  }
}
