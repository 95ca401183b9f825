/** The second script's own `image_data`: tags cleaned in place in a
    list, and its permission loop. */
module ProjectTwo {
  import opened Text
  import opened Records
  import opened Dialog
  import opened Tags
  import opened Ingest
  import opened Storage

  /** The split-strip-join of the keyword and feature answers: the pieces
      go into a list, each element is replaced by its stripped form in an
      index loop, and the list is joined again. The result is what the
      third script's `get_input_list` makes of the same answer. */
  method CleanTags(answer: string) returns (tags: string)
    ensures tags == Normalize(answer)
  {
    var pieces := Split(answer, ',');
    var imageKeywords := new string[|pieces|](k requires 0 <= k < |pieces| => pieces[k]);
    for i := 0 to imageKeywords.Length
      invariant forall k :: 0 <= k < i ==> imageKeywords[k] == Strip(pieces[k])
      invariant forall k :: i <= k < imageKeywords.Length ==> imageKeywords[k] == pieces[k]
    {
      imageKeywords[i] := Strip(imageKeywords[i]);
    }
    StripAllAt(pieces);
    assert imageKeywords[..] == StripAll(pieces);
    tags := Join(imageKeywords[..], ',');
  }

  /** `image_data(image_path)`: `get_key` runs first (to encrypt the
      image), then the keyword prompt, the permission loop, and the
      feature prompt. The ciphertext and the identifier are `d`. */
  method ImageData(keys: KeyFile, path: string, answers: seq<string>, cursor: nat, d: Draw, generated: Blob)
    returns (r: Reply<Record>)
    requires keys.Valid() && |generated| == KeyLength
    modifies keys
    ensures r == ImageTwo(path, answers, cursor, d)
    ensures r.Done? ==> r.value.imageAccess == Private
    ensures keys.Valid() && keys.State() == Fetch(old(keys.State()), generated).0
  {
    var (filename, fileFormat) := SplitExt(path);
    filename := Basename(filename);
    var key := keys.GetKey(generated);
    var imageAccess := Private;
    var c := cursor;
    if c >= |answers| {
      return EndOfInput;
    }
    var imageKeywords := CleanTags(answers[c]);
    c := c + 1;
    if c >= |answers| {
      return EndOfInput;
    }
    var permission := Strip(Lower(answers[c]));
    c := c + 1;
    while permission != "y" && permission != "n"
      invariant cursor + 2 <= c <= |answers|
      invariant imageAccess == Private
      invariant Reprompt(answers, c, permission, imageAccess) == AccessTwo(answers, cursor + 1)
      decreases |answers| - c
    {
      if permission == "y" {
        imageAccess := Public;
      } else if permission == "n" {
        imageAccess := Private;
      } else {
        if c >= |answers| {
          return EndOfInput;
        }
        permission := Lower(answers[c]);
        c := c + 1;
      }
    }
    if c >= |answers| {
      return EndOfInput;
    }
    var imageFeatures := CleanTags(answers[c]);
    c := c + 1;
    var userPass := UserPass;
    r := Done(Record(filename, d.code, imageKeywords, imageFeatures, imageAccess, userPass, d.uuid), c);
  }
}
