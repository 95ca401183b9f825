/** `store_images` and `search_images`, which the two scripts share except
    for one `print`: a store loads the table, visits the candidates, appends one
    record per new image and writes the table once; a search loads the
    table and collects the matching rows. */
module Repository {
  import opened Text
  import opened Records
  import opened Dialog
  import opened Ingest
  import opened Store
  import opened Search
  import opened Storage
  import ProjectTwo
  import ProjectThree

  /** `store_images(directory)` of the given script. `globbed` is what
      `glob` lists in the directory and `isFile` whether the path names a
      file; `draw(i)` is candidate `i`'s ciphertext and identifier, and
      `generated` the key made if the key file is missing. When the
      answers run out the script dies with the table unwritten; the key
      file may have been created by then. */
  method StoreImages(script: Script, db: DataFile, keys: KeyFile, directory: string, globbed: seq<string>, isFile: bool,
                     answers: seq<string>, cursor: nat, draw: nat -> Draw, generated: Blob)
    returns (r: Reply<seq<Record>>)
    requires keys.Valid() && |generated| == KeyLength
    modifies db, keys
    ensures r == Batch(script, old(db.Load()), Candidates(directory, globbed, isFile), 0, answers, cursor, draw)
    ensures r.Done? ==> db.present && db.rows == r.value && db.writes == old(db.writes) + 1
    ensures r.EndOfInput? ==> unchanged(db)
    ensures keys.Valid()
    ensures keys.State() ==
      if r.Done? && |r.value| == |old(db.Load())| then old(keys.State()) else Fetch(old(keys.State()), generated).0
  {
    var table := db.Load();
    var files := globbed;
    if isFile {
      files := [directory];
    }
    ghost var t0 := table;
    ghost var k0 := keys.State();
    var c := cursor;
    for i := 0 to |files|
      invariant Batch(script, table, files, i, answers, c, draw) == Batch(script, t0, files, 0, answers, cursor, draw)
      invariant |t0| <= |table|
      invariant keys.Valid()
      invariant keys.State() == if |table| == |t0| then k0 else Fetch(k0, generated).0
      invariant unchanged(db)
    {
      FetchStable(k0, generated, generated);
      var outcome := Visit(script, keys, table, files, i, answers, c, draw, generated);
      if outcome.EndOfInput? {
        return EndOfInput;
      }
      table, c := outcome.value, outcome.next;
    }
    BatchFinished(script, table, files, answers, c, draw);
    db.Save(table);
    r := Done(table, c);
  }

  /** One pass of the loop of `store_images`: candidate `i` is passed over
      when its extension is not accepted or its name occurs inside a name
      of the table, and otherwise its record is appended. */
  method Visit(script: Script, keys: KeyFile, table: seq<Record>, files: seq<string>, i: nat,
               answers: seq<string>, cursor: nat, draw: nat -> Draw, generated: Blob)
    returns (outcome: Reply<seq<Record>>)
    requires i < |files|
    requires keys.Valid() && |generated| == KeyLength
    modifies keys
    ensures Batch(script, table, files, i, answers, cursor, draw) ==
      if outcome.EndOfInput? then EndOfInput else Batch(script, outcome.value, files, i + 1, answers, outcome.next, draw)
    ensures outcome.Done? ==> |outcome.value| == |table| || |outcome.value| == |table| + 1
    ensures keys.Valid()
    ensures keys.State() ==
      if outcome.Done? && |outcome.value| == |table| then old(keys.State()) else Fetch(old(keys.State()), generated).0
  {
    var imageFormats := ImageFormats;
    var file := files[i];
    var extension := SplitExt(file);
    if extension.1 !in imageFormats {
      BatchSkips(script, table, files, i, answers, cursor, draw);
      return Done(table, cursor);
    }
    var filename := Basename(extension.0);
    if NameTaken(table, filename) {
      BatchSkips(script, table, files, i, answers, cursor, draw);
      return Done(table, cursor);
    }
    BatchIngests(script, table, files, i, answers, cursor, draw);
    var step := ImageData(script, keys, file, answers, cursor, draw(i), generated);
    if step.EndOfInput? {
      return EndOfInput;
    }
    outcome := Done(table + [step.value], step.next);
  }

  /** The `image_data` of the given script. */
  method ImageData(script: Script, keys: KeyFile, path: string, answers: seq<string>, cursor: nat, d: Draw, generated: Blob)
    returns (r: Reply<Record>)
    requires keys.Valid() && |generated| == KeyLength
    modifies keys
    ensures r == Ingest.ImageData(script, path, answers, cursor, d)
    ensures keys.Valid() && keys.State() == Fetch(old(keys.State()), generated).0
  {
    if script == Three {
      r := ProjectThree.ImageData(keys, path, answers, cursor, d, generated);
    } else {
      r := ProjectTwo.ImageData(keys, path, answers, cursor, d, generated);
    }
  }

  /** `search_images(column)`: one answer is the query; every row whose
      column has a comma-separated token equal to a stripped, lower-cased
      query term is collected once, in table order. */
  method SearchImages(db: DataFile, column: Column, answers: seq<string>, cursor: nat) returns (r: Reply<seq<Record>>)
    ensures r.Done? <==> cursor < |answers|
    ensures r.Done? ==> r.next == cursor + 1 && r.value == Search.Search(db.Load(), column, answers[cursor])
  {
    var table := db.Load();
    if cursor >= |answers| {
      return EndOfInput;
    }
    var keywordSearch := Split(Lower(answers[cursor]), ',');
    var imagesFound := [];
    var keywordList := seq(|table|, k requires 0 <= k < |table| => Field(table[k], column));
    for i := 0 to |keywordList|
      invariant imagesFound == Matches(table, column, keywordSearch, i)
    {
      var keywords := Split(keywordList[i], ',');
      var j := 0;
      while j < |keywordSearch|
        invariant j <= |keywordSearch|
        invariant AnyTermIn(keywordSearch[j..], keywords) == AnyTermIn(keywordSearch, keywords)
        invariant imagesFound == Matches(table, column, keywordSearch, i)
      {
        var keywordStrip := Strip(keywordSearch[j]);
        if keywordStrip in keywords {
          imagesFound := imagesFound + [table[i]];
          break;
        }
        assert keywordSearch[j..][1..] == keywordSearch[j + 1..];
        j := j + 1;
      }
    }
    r := Done(imagesFound, cursor + 1);
  }
}
