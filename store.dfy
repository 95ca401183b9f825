/** `store_images` of both scripts, as a function of the table it starts
    from: candidates are filtered by extension, a candidate whose name
    occurs inside a name already in the table is skipped, and the others
    are appended in order. */
module Store {
  import opened Text
  import opened Records
  import opened Dialog
  import opened Ingest

  /** `DATA_DF['image_name'].str.contains(name).any()`, with the pattern
      read as plain text: some name in the table has `name` inside it. */
  predicate NameTaken(table: seq<Record>, name: string) {
    exists k :: 0 <= k < |table| && Contains(table[k].imageName, name)
  }

  /** The paths `store_images` loops over: the path itself when it names a
      file, otherwise what `glob` listed in the directory. */
  function Candidates(directory: string, globbed: seq<string>, isFile: bool): seq<string> {
    if isFile then [directory] else globbed
  }

  /** The loop of `store_images` from candidate `i` on, with `table` the
      table so far; `draw(i)` supplies candidate `i`'s ciphertext and
      identifier. Running out of answers aborts the whole batch. */
  function Batch(script: Script, table: seq<Record>, files: seq<string>, i: nat,
                 answers: seq<string>, cursor: nat, draw: nat -> Draw): Reply<seq<Record>>
    requires i <= |files|
    decreases |files| - i, 1
  {
    if i == |files| then Done(table, cursor)
    else Candidate(script, table, files, i, answers, cursor, draw)
  }

  function Candidate(script: Script, table: seq<Record>, files: seq<string>, i: nat,
                     answers: seq<string>, cursor: nat, draw: nat -> Draw): Reply<seq<Record>>
    requires i < |files|
    decreases |files| - i, 0
  {
    if !HasImageFormat(files[i]) then Batch(script, table, files, i + 1, answers, cursor, draw)
    else if NameTaken(table, ImageNameOf(files[i])) then Batch(script, table, files, i + 1, answers, cursor, draw)
    else
      match ImageData(script, files[i], answers, cursor, draw(i))
      case EndOfInput => EndOfInput
      case Done(r, next) => Batch(script, table + [r], files, i + 1, answers, next, draw)
  }

  /** After the last candidate the table built so far is the result. */
  lemma BatchFinished(script: Script, table: seq<Record>, files: seq<string>, answers: seq<string>, cursor: nat, draw: nat -> Draw)
    ensures Batch(script, table, files, |files|, answers, cursor, draw) == Done(table, cursor)
  {
  }

  /** A candidate with another extension, or whose name is taken, is
      passed over without reading an answer. */
  lemma BatchSkips(script: Script, table: seq<Record>, files: seq<string>, i: nat,
                   answers: seq<string>, cursor: nat, draw: nat -> Draw)
    requires i < |files|
    requires !HasImageFormat(files[i]) || NameTaken(table, ImageNameOf(files[i]))
    ensures Batch(script, table, files, i, answers, cursor, draw) == Batch(script, table, files, i + 1, answers, cursor, draw)
  {
  }

  /** Any other candidate is ingested: its record is appended, or the batch
      ends when the answers run out. */
  lemma BatchIngests(script: Script, table: seq<Record>, files: seq<string>, i: nat,
                     answers: seq<string>, cursor: nat, draw: nat -> Draw)
    requires i < |files|
    requires HasImageFormat(files[i]) && !NameTaken(table, ImageNameOf(files[i]))
    ensures var step := ImageData(script, files[i], answers, cursor, draw(i));
      Batch(script, table, files, i, answers, cursor, draw) ==
        if step.EndOfInput? then EndOfInput
        else Batch(script, table + [step.value], files, i + 1, answers, step.next, draw)
  {
  }

  /** The rows of the table before the batch stay, unchanged and in order,
      at its front; at most one row is added per remaining candidate, and
      every added row carries the constant password. */
  lemma BatchAppendsOnly(script: Script, table: seq<Record>, files: seq<string>, i: nat,
                         answers: seq<string>, cursor: nat, draw: nat -> Draw)
    requires i <= |files|
    ensures Batch(script, table, files, i, answers, cursor, draw).Done? ==>
      var t := Batch(script, table, files, i, answers, cursor, draw).value;
      && |table| <= |t| <= |table| + (|files| - i)
      && (forall m :: 0 <= m < |table| ==> t[m] == table[m])
      && forall m :: |table| <= m < |t| ==> t[m].userPass == UserPass
  {
    BatchKeepsPrefix(script, table, files, i, answers, cursor, draw);
    BatchKeepsPassword(script, table, files, i, answers, cursor, draw, |table|);
  }

  lemma {:induction false} BatchKeepsPrefix(script: Script, table: seq<Record>, files: seq<string>, i: nat,
                                            answers: seq<string>, cursor: nat, draw: nat -> Draw)
    requires i <= |files|
    ensures Batch(script, table, files, i, answers, cursor, draw).Done? ==>
      var t := Batch(script, table, files, i, answers, cursor, draw).value;
      && |table| <= |t| <= |table| + (|files| - i)
      && forall m :: 0 <= m < |table| ==> t[m] == table[m]
    decreases |files| - i
  {
    if i < |files| && HasImageFormat(files[i]) && !NameTaken(table, ImageNameOf(files[i])) {
      var step := ImageData(script, files[i], answers, cursor, draw(i));
      BatchIngests(script, table, files, i, answers, cursor, draw);
      if step.Done? {
        BatchKeepsPrefix(script, table + [step.value], files, i + 1, answers, step.next, draw);
      }
    } else if i < |files| {
      BatchSkips(script, table, files, i, answers, cursor, draw);
      BatchKeepsPrefix(script, table, files, i + 1, answers, cursor, draw);
    }
  }

  /** Rows from position `n` on carry the constant password. */
  ghost predicate StampedFrom(t: seq<Record>, n: nat) {
    forall m :: n <= m < |t| ==> t[m].userPass == UserPass
  }

  lemma {:induction false} BatchKeepsPassword(script: Script, table: seq<Record>, files: seq<string>, i: nat,
                                              answers: seq<string>, cursor: nat, draw: nat -> Draw, n: nat)
    requires i <= |files|
    requires StampedFrom(table, n)
    ensures Batch(script, table, files, i, answers, cursor, draw).Done? ==>
      StampedFrom(Batch(script, table, files, i, answers, cursor, draw).value, n)
    decreases |files| - i
  {
    if i < |files| && HasImageFormat(files[i]) && !NameTaken(table, ImageNameOf(files[i])) {
      var step := ImageData(script, files[i], answers, cursor, draw(i));
      if step.Done? {
        RecordOfEither(script, files[i], answers, cursor, draw(i));
        var t := table + [step.value];
        assert StampedFrom(t, n);
        BatchKeepsPassword(script, t, files, i + 1, answers, step.next, draw, n);
      }
    } else if i < |files| {
      BatchKeepsPassword(script, table, files, i + 1, answers, cursor, draw, n);
    }
  }

  /** Rows from position `n` on have names that occur inside no earlier name. */
  ghost predicate UnseenFrom(t: seq<Record>, n: nat) {
    forall m, k :: n <= m < |t| && 0 <= k < m ==> !Contains(t[k].imageName, t[m].imageName)
  }

  lemma {:induction false} BatchKeepsUnseen(script: Script, table: seq<Record>, files: seq<string>, i: nat,
                                            answers: seq<string>, cursor: nat, draw: nat -> Draw, n: nat)
    requires i <= |files|
    requires n <= |table| && UnseenFrom(table, n)
    ensures Batch(script, table, files, i, answers, cursor, draw).Done? ==>
      UnseenFrom(Batch(script, table, files, i, answers, cursor, draw).value, n)
    decreases |files| - i
  {
    if i < |files| && HasImageFormat(files[i]) && !NameTaken(table, ImageNameOf(files[i])) {
      var step := ImageData(script, files[i], answers, cursor, draw(i));
      if step.Done? {
        RecordOfEither(script, files[i], answers, cursor, draw(i));
        var t := table + [step.value];
        forall m, k | n <= m < |t| && 0 <= k < m ensures !Contains(t[k].imageName, t[m].imageName) {
          if m == |table| {
            assert t[k] == table[k];
          }
        }
        BatchKeepsUnseen(script, t, files, i + 1, answers, step.next, draw, n);
      }
    } else if i < |files| {
      BatchKeepsUnseen(script, table, files, i + 1, answers, cursor, draw, n);
    }
  }

  /** The substring check covers rows appended earlier in the same batch:
      no added row's name occurs inside the name of any row before it,
      original or new, so in particular every added name differs from
      every name before it. */
  lemma BatchAddsOnlyUnseenNames(script: Script, table: seq<Record>, files: seq<string>,
                                 answers: seq<string>, cursor: nat, draw: nat -> Draw)
    ensures Batch(script, table, files, 0, answers, cursor, draw).Done? ==>
      var t := Batch(script, table, files, 0, answers, cursor, draw).value;
      forall m, k :: |table| <= m < |t| && 0 <= k < m ==>
        !Contains(t[k].imageName, t[m].imageName) && t[k].imageName != t[m].imageName
  {
    BatchKeepsUnseen(script, table, files, 0, answers, cursor, draw, |table|);
  }

  lemma NameTakenGrows(t: seq<Record>, u: seq<Record>, name: string)
    requires |t| <= |u| && forall m :: 0 <= m < |t| ==> u[m] == t[m]
    requires NameTaken(t, name)
    ensures NameTaken(u, name)
  {
    var k :| 0 <= k < |t| && Contains(t[k].imageName, name);
    assert u[k] == t[k];
  }

  /** Every candidate in `files[lo..hi]` with an accepted extension has its
      name inside some name of `t`. */
  ghost predicate CoveredUpTo(t: seq<Record>, files: seq<string>, lo: nat, hi: nat)
    requires hi <= |files|
  {
    forall j :: lo <= j < hi ==> Covered(t, files, j)
  }

  /** Candidate `j`, if its extension is accepted, has its name inside a name of `t`. */
  ghost predicate Covered(t: seq<Record>, files: seq<string>, j: nat)
    requires j < |files|
  {
    HasImageFormat(files[j]) ==> NameTaken(t, ImageNameOf(files[j]))
  }

  lemma CoveredAfterSkip(table: seq<Record>, files: seq<string>, i: nat, lo: nat)
    requires lo <= i < |files| && CoveredUpTo(table, files, lo, i)
    requires !HasImageFormat(files[i]) || NameTaken(table, ImageNameOf(files[i]))
    ensures CoveredUpTo(table, files, lo, i + 1)
  {
  }

  lemma CoveredAfterAdd(table: seq<Record>, r: Record, files: seq<string>, i: nat, lo: nat)
    requires lo <= i < |files| && CoveredUpTo(table, files, lo, i)
    requires r.imageName == ImageNameOf(files[i])
    ensures CoveredUpTo(table + [r], files, lo, i + 1)
  {
    var t := table + [r];
    forall j | lo <= j < i ensures Covered(t, files, j) {
      assert Covered(table, files, j);
      if HasImageFormat(files[j]) {
        NameTakenGrows(table, t, ImageNameOf(files[j]));
      }
    }
    assert Contains(t[|table|].imageName, r.imageName);
    assert Covered(t, files, i);
  }

  lemma {:induction false} BatchKeepsCovered(script: Script, table: seq<Record>, files: seq<string>, i: nat,
                                             answers: seq<string>, cursor: nat, draw: nat -> Draw, lo: nat)
    requires lo <= i <= |files|
    requires CoveredUpTo(table, files, lo, i)
    ensures Batch(script, table, files, i, answers, cursor, draw).Done? ==>
      CoveredUpTo(Batch(script, table, files, i, answers, cursor, draw).value, files, lo, |files|)
    decreases |files| - i
  {
    if i < |files| {
      if !HasImageFormat(files[i]) || NameTaken(table, ImageNameOf(files[i])) {
        CoveredAfterSkip(table, files, i, lo);
        BatchKeepsCovered(script, table, files, i + 1, answers, cursor, draw, lo);
      } else {
        var step := ImageData(script, files[i], answers, cursor, draw(i));
        if step.Done? {
          RecordOfEither(script, files[i], answers, cursor, draw(i));
          CoveredAfterAdd(table, step.value, files, i, lo);
          BatchKeepsCovered(script, table + [step.value], files, i + 1, answers, step.next, draw, lo);
        }
      }
    }
  }

  /** After the batch, the name of every candidate with an accepted
      extension occurs inside some name of the table: it was there before,
      or its row was added. */
  lemma BatchCoversCandidates(script: Script, table: seq<Record>, files: seq<string>,
                              answers: seq<string>, cursor: nat, draw: nat -> Draw)
    ensures Batch(script, table, files, 0, answers, cursor, draw).Done? ==>
      var t := Batch(script, table, files, 0, answers, cursor, draw).value;
      forall j :: 0 <= j < |files| && HasImageFormat(files[j]) ==> NameTaken(t, ImageNameOf(files[j]))
  {
    BatchKeepsCovered(script, table, files, 0, answers, cursor, draw, 0);
    if Batch(script, table, files, 0, answers, cursor, draw).Done? {
      var t := Batch(script, table, files, 0, answers, cursor, draw).value;
      forall j | 0 <= j < |files| && HasImageFormat(files[j]) ensures NameTaken(t, ImageNameOf(files[j])) {
        assert Covered(t, files, j);
      }
    }
  }

  /** `xs` is `ys` with some elements left out, the rest in order. */
  predicate Subsequence<T(==)>(xs: seq<T>, ys: seq<T>)
    decreases |ys|
  {
    xs == [] || (ys != [] && ((xs[0] == ys[0] && Subsequence(xs[1..], ys[1..])) || Subsequence(xs, ys[1..])))
  }

  function Names(rows: seq<Record>): seq<string> {
    if rows == [] then [] else [rows[0].imageName] + Names(rows[1..])
  }

  /** The names of the candidates from `i` on whose extension is accepted. */
  function AcceptedNames(files: seq<string>, i: nat): seq<string>
    requires i <= |files|
    decreases |files| - i
  {
    if i == |files| then []
    else (if HasImageFormat(files[i]) then [ImageNameOf(files[i])] else []) + AcceptedNames(files, i + 1)
  }

  /** The added rows come from candidates with an accepted extension, at
      most one per candidate, in the order the candidates are visited. */
  lemma {:induction false} BatchFollowsCandidateOrder(script: Script, table: seq<Record>, files: seq<string>, i: nat,
                                                      answers: seq<string>, cursor: nat, draw: nat -> Draw)
    requires i <= |files|
    ensures Batch(script, table, files, i, answers, cursor, draw).Done? ==>
      var t := Batch(script, table, files, i, answers, cursor, draw).value;
      |table| <= |t| && Subsequence(Names(t[|table|..]), AcceptedNames(files, i))
    decreases |files| - i, 1
  {
    if i < |files| {
      if !HasImageFormat(files[i]) || NameTaken(table, ImageNameOf(files[i])) {
        OrderAfterSkip(script, table, files, i, answers, cursor, draw);
      } else {
        OrderAfterIngest(script, table, files, i, answers, cursor, draw);
      }
    }
  }

  /** The order holds at a skipped candidate, as it does after it. */
  lemma {:induction false} OrderAfterSkip(script: Script, table: seq<Record>, files: seq<string>, i: nat,
                                          answers: seq<string>, cursor: nat, draw: nat -> Draw)
    requires i < |files|
    requires !HasImageFormat(files[i]) || NameTaken(table, ImageNameOf(files[i]))
    ensures Batch(script, table, files, i, answers, cursor, draw).Done? ==>
      var t := Batch(script, table, files, i, answers, cursor, draw).value;
      |table| <= |t| && Subsequence(Names(t[|table|..]), AcceptedNames(files, i))
    decreases |files| - i, 0
  {
    BatchFollowsCandidateOrder(script, table, files, i + 1, answers, cursor, draw);
    BatchSkips(script, table, files, i, answers, cursor, draw);
    var result := Batch(script, table, files, i, answers, cursor, draw);
    if HasImageFormat(files[i]) {
      if result.Done? {
        assert AcceptedNames(files, i)[1..] == AcceptedNames(files, i + 1);
        SubsequenceSkip(Names(result.value[|table|..]), AcceptedNames(files, i));
      }
    } else {
      assert AcceptedNames(files, i) == AcceptedNames(files, i + 1);
    }
  }

  /** The order holds at an ingested candidate, as it does after it. */
  lemma {:induction false} OrderAfterIngest(script: Script, table: seq<Record>, files: seq<string>, i: nat,
                                            answers: seq<string>, cursor: nat, draw: nat -> Draw)
    requires i < |files|
    requires HasImageFormat(files[i]) && !NameTaken(table, ImageNameOf(files[i]))
    ensures Batch(script, table, files, i, answers, cursor, draw).Done? ==>
      var t := Batch(script, table, files, i, answers, cursor, draw).value;
      |table| <= |t| && Subsequence(Names(t[|table|..]), AcceptedNames(files, i))
    decreases |files| - i, 0
  {
    var step := ImageData(script, files[i], answers, cursor, draw(i));
    BatchIngests(script, table, files, i, answers, cursor, draw);
    if step.Done? {
      var t := table + [step.value];
      BatchFollowsCandidateOrder(script, t, files, i + 1, answers, step.next, draw);
      RecordOfEither(script, files[i], answers, cursor, draw(i));
      BatchKeepsPrefix(script, t, files, i + 1, answers, step.next, draw);
      var result := Batch(script, t, files, i + 1, answers, step.next, draw);
      if result.Done? {
        var ys := AcceptedNames(files, i);
        assert ys[0] == ImageNameOf(files[i]) && ys[1..] == AcceptedNames(files, i + 1);
        assert result.value[|table|] == t[|table|];
        OrderAfterAdd(table, step.value, result.value, ys);
      }
    }
  }

  /** A name the rows leave out can be dropped from the front of `ys`. */
  lemma SubsequenceSkip<T>(xs: seq<T>, ys: seq<T>)
    requires ys != [] && Subsequence(xs, ys[1..])
    ensures Subsequence(xs, ys)
  {
  }

  /** A row `r` appended to `table` and followed, in the final table `u`, by
      rows whose names follow `ys[1..]` gives rows whose names follow `ys`
      when `r` carries the name `ys[0]`. */
  lemma OrderAfterAdd(table: seq<Record>, r: Record, u: seq<Record>, ys: seq<string>)
    requires |table| + 1 <= |u| && u[|table|] == r
    requires ys != [] && ys[0] == r.imageName
    requires Subsequence(Names(u[|table| + 1..]), ys[1..])
    ensures Subsequence(Names(u[|table|..]), ys)
  {
    var s := u[|table|..];
    assert s[1..] == u[|table| + 1..];
    assert Names(s)[0] == ys[0] && Names(s)[1..] == Names(s[1..]);
  }

  /** A table holding `doggo` makes a batch skip `dog.png`: the name `dog`
      occurs inside `doggo`, so no answer is read and nothing is added. */
  lemma SubstringNameSkipped(script: Script, row: Record, answers: seq<string>, cursor: nat, draw: nat -> Draw)
    requires row.imageName == "doggo"
    ensures Batch(script, [row], ["dog.png"], 0, answers, cursor, draw) == Done([row], cursor)
  {
    DogPath();
    assert "dog" <= "doggo";
    assert Contains([row][0].imageName, "dog");
  }

  /** `dog.png` is accepted and named `dog`. */
  lemma DogPath()
    ensures HasImageFormat("dog.png") && ImageNameOf("dog.png") == "dog"
  {
    var p := "dog.png";
    assert ComponentStart(p) == 0 by {
      AfterLastNone(p, '/');
    }
    assert LastDot(p) == 3 by {
      assert p == "dog" + ['.'] + "png";
      AfterLastFound("dog", '.', "png");
    }
    assert SplitExt(p) == ("dog", ".png") by {
      assert p[0] != '.';
      assert HasNonDot(p, 0, 3);
      assert p[..3] == "dog";
      assert p[3..] == ".png";
    }
    assert ImageNameOf(p) == "dog" by {
      AfterLastNone("dog", '/');
    }
    assert ImageFormats[3] == ".png";
  }

  /** The extension test is case-sensitive and exact: of `a.png`, `b.txt`
      and `c.PNG` only the first is accepted. */
  lemma ExtensionFilterExample()
    ensures HasImageFormat("a.png")
    ensures !HasImageFormat("b.txt")
    ensures !HasImageFormat("c.PNG")
  {
    PngAccepted();
    TxtRejected();
    UpperPngRejected();
  }

  lemma PngAccepted()
    ensures HasImageFormat("a.png")
  {
    assert "a" + ['.'] + "png" == "a.png";
    ExtensionOfShortName("a", "png");
    assert ImageFormats[3] == ".png";
  }

  lemma TxtRejected()
    ensures !HasImageFormat("b.txt")
  {
    assert "b" + ['.'] + "txt" == "b.txt";
    ExtensionOfShortName("b", "txt");
  }

  lemma UpperPngRejected()
    ensures !HasImageFormat("c.PNG")
  {
    assert "c" + ['.'] + "PNG" == "c.PNG";
    ExtensionOfShortName("c", "PNG");
  }

  lemma ExtensionOfShortName(stem: string, ext: string)
    requires |stem| == 1 && stem[0] != '.' && stem[0] != '/'
    requires '.' !in ext && '/' !in ext
    ensures ExtensionOf(stem + ['.'] + ext) == ['.'] + ext
  {
    var p := stem + ['.'] + ext;
    AfterLastFound(stem, '.', ext);
    assert '/' !in p;
    assert ComponentStart(p) == 0 by {
      AfterLastNone(p, '/');
    }
    assert p[0] != '.';
    assert HasNonDot(p, 0, 1);
    assert p[1..] == ['.'] + ext;
  }
}
