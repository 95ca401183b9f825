/** The third script's own prompts, as it runs them: the permission loop
    and `image_data`. */
module ProjectThree {
  import opened Text
  import opened Records
  import opened Dialog
  import opened Tags
  import opened Ingest
  import opened Storage

  /** `get_permission()`: prompts until an answer, lower-cased and
      stripped, is `y` (public) or `n` (private). */
  method GetPermission(answers: seq<string>, cursor: nat) returns (r: Reply<string>)
    ensures r == Permission(answers, cursor)
    ensures r.Done? ==> r.value == Public || r.value == Private
  {
    var c := cursor;
    while true
      invariant cursor <= c
      invariant Permission(answers, c) == Permission(answers, cursor)
      decreases |answers| - c
    {
      if c >= |answers| {
        return EndOfInput;
      }
      var permission := Strip(Lower(answers[c]));
      c := c + 1;
      if permission == "y" {
        return Done(Public, c);
      } else if permission == "n" {
        return Done(Private, c);
      }
    }
  }

  /** `image_data(image_path)`. Building the dictionary first encrypts the
      image, which calls `get_key`; then the keyword, feature and
      permission prompts run in that order. The ciphertext and the
      identifier are `d`. */
  method ImageData(keys: KeyFile, path: string, answers: seq<string>, cursor: nat, d: Draw, generated: Blob)
    returns (r: Reply<Record>)
    requires keys.Valid() && |generated| == KeyLength
    modifies keys
    ensures r == ImageThree(path, answers, cursor, d)
    ensures keys.Valid() && keys.State() == Fetch(old(keys.State()), generated).0
  {
    var (filename, fileFormat) := SplitExt(path);
    filename := Basename(filename);
    var userPass := UserPass;
    var key := keys.GetKey(generated);
    var keywords := GetInputList(answers, cursor);
    if keywords.EndOfInput? {
      return EndOfInput;
    }
    var features := GetInputList(answers, keywords.next);
    if features.EndOfInput? {
      return EndOfInput;
    }
    var access := GetPermission(answers, features.next);
    if access.EndOfInput? {
      return EndOfInput;
    }
    r := Done(Record(filename, d.code, keywords.value, features.value, access.value, userPass, d.uuid), access.next);
  }
}
