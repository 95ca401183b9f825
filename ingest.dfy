/** `image_data` of both scripts: the record built for one image path from
    the answers given at its prompts. */
module Ingest {
  import opened Text
  import opened Records
  import opened Dialog
  import opened Tags

  /** Which of the two near-identical scripts is meant. */
  datatype Script = Two | Three

  /** `image_data` of the third script. The dictionary literal is evaluated
      in order: keywords, then features, then the permission prompt. */
  function ImageThree(path: string, answers: seq<string>, cursor: nat, d: Draw): Reply<Record> {
    match GetInputList(answers, cursor)
    case EndOfInput => EndOfInput
    case Done(keywords, afterKeywords) =>
      match GetInputList(answers, afterKeywords)
      case EndOfInput => EndOfInput
      case Done(features, afterFeatures) =>
        match Permission(answers, afterFeatures)
        case EndOfInput => EndOfInput
        case Done(access, next) =>
          Done(Record(ImageNameOf(path), d.code, keywords, features, access, UserPass, d.uuid), next)
  }

  /** `image_data` of the second script: keywords, then the permission
      loop, then features. */
  function ImageTwo(path: string, answers: seq<string>, cursor: nat, d: Draw): Reply<Record> {
    match Read(answers, cursor)
    case EndOfInput => EndOfInput
    case Done(keywordAnswer, afterKeywords) =>
      match AccessTwo(answers, afterKeywords)
      case EndOfInput => EndOfInput
      case Done(access, afterAccess) =>
        match Read(answers, afterAccess)
        case EndOfInput => EndOfInput
        case Done(featureAnswer, next) =>
          Done(Record(ImageNameOf(path), d.code, Normalize(keywordAnswer), Normalize(featureAnswer),
                      access, UserPass, d.uuid), next)
  }

  function ImageData(script: Script, path: string, answers: seq<string>, cursor: nat, d: Draw): Reply<Record> {
    match script
    case Two => ImageTwo(path, answers, cursor, d)
    case Three => ImageThree(path, answers, cursor, d)
  }

  /** The third script builds a record exactly when the input holds a
      keyword answer, a feature answer and, after them, an answer that
      reads `y` or `n`. */
  lemma ThreeCompletesExactlyWhen(path: string, answers: seq<string>, cursor: nat, d: Draw)
    ensures ImageThree(path, answers, cursor, d).Done? <==>
      cursor + 2 <= |answers| && exists k :: cursor + 2 <= k < |answers| && Decisive(answers[k])
  {
    PermissionDecidedByFirstYesOrNo(answers, cursor + 2);
    if cursor + 2 <= |answers| {
      var p := Permission(answers, cursor + 2);
      assert ImageThree(path, answers, cursor, d).Done? == p.Done?;
      if p.Done? {
        assert Decisive(answers[p.next - 1]);
      }
    }
  }

  /** The third script's record: named after the path, keywords from the
      first answer, features from the second, access decided by the first
      later answer that reads `y` or `n`, and the constant password. */
  lemma RecordOfThree(path: string, answers: seq<string>, cursor: nat, d: Draw)
    ensures ImageThree(path, answers, cursor, d).Done? ==>
      var r := ImageThree(path, answers, cursor, d).value;
      var n := ImageThree(path, answers, cursor, d).next;
      && cursor + 2 < n <= |answers|
      && r.imageName == ImageNameOf(path)
      && r.imageCode == d.code
      && r.imageKeywords == Normalize(answers[cursor])
      && r.imageFeatures == Normalize(answers[cursor + 1])
      && (r.imageAccess == Public <==> Strip(Lower(answers[n - 1])) == "y")
      && (r.imageAccess == Public || r.imageAccess == Private)
      && Decisive(answers[n - 1])
      && (forall k :: cursor + 2 <= k < n - 1 ==> !Decisive(answers[k]))
      && r.userPass == "12345"
      && r.uniqueUuid == d.uuid
  {
    ImageThreeParts(path, answers, cursor, d);
    if ImageThree(path, answers, cursor, d).Done? {
      var p := Permission(answers, cursor + 2);
      PermissionDecidedByFirstYesOrNo(answers, cursor + 2);
      assert ImageThree(path, answers, cursor, d).value.imageAccess == p.value;
      assert ImageThree(path, answers, cursor, d).next == p.next;
    }
  }

  /** A completed record of the third script is made of the first two
      answers, normalised, and the permission read after them. */
  lemma ImageThreeParts(path: string, answers: seq<string>, cursor: nat, d: Draw)
    ensures ImageThree(path, answers, cursor, d).Done? ==>
      && cursor + 2 <= |answers|
      && Permission(answers, cursor + 2).Done?
      && ImageThree(path, answers, cursor, d)
         == Done(Record(ImageNameOf(path), d.code, Normalize(answers[cursor]), Normalize(answers[cursor + 1]),
                        Permission(answers, cursor + 2).value, UserPass, d.uuid), Permission(answers, cursor + 2).next)
  {
  }

  /** The second script's record: named after the path, keywords from the
      first answer, features from the answer after the permission prompt,
      and always `private`, whatever was answered. */
  lemma RecordOfTwo(path: string, answers: seq<string>, cursor: nat, d: Draw)
    ensures ImageTwo(path, answers, cursor, d).Done? ==>
      var r := ImageTwo(path, answers, cursor, d).value;
      var n := ImageTwo(path, answers, cursor, d).next;
      && cursor + 2 < n <= |answers|
      && r.imageName == ImageNameOf(path)
      && r.imageCode == d.code
      && r.imageKeywords == Normalize(answers[cursor])
      && AccessTwo(answers, cursor + 1) == Done(Private, n - 1)
      && r.imageFeatures == Normalize(answers[n - 1])
      && r.imageAccess == Private
      && r.userPass == "12345"
      && r.uniqueUuid == d.uuid
  {
    AccessTwoAlwaysPrivate(answers, cursor + 1);
  }

  /** The second script builds a record exactly when the input holds a
      keyword answer, a permission prompt that ends, and an answer after it. */
  lemma TwoCompletesExactlyWhen(path: string, answers: seq<string>, cursor: nat, d: Draw)
    ensures ImageTwo(path, answers, cursor, d).Done? <==>
      cursor < |answers| && AccessTwo(answers, cursor + 1).Done? && AccessTwo(answers, cursor + 1).next < |answers|
  {
  }

  /** What both scripts share: the name, password, ciphertext and
      identifier of the record, and answers consumed from the cursor on. */
  lemma RecordOfEither(script: Script, path: string, answers: seq<string>, cursor: nat, d: Draw)
    ensures ImageData(script, path, answers, cursor, d).Done? ==>
      var r := ImageData(script, path, answers, cursor, d).value;
      && cursor < ImageData(script, path, answers, cursor, d).next <= |answers|
      && r.imageName == ImageNameOf(path)
      && r.userPass == UserPass
      && r.imageCode == d.code
      && r.uniqueUuid == d.uuid
  {
    match script
    case Two => RecordOfTwo(path, answers, cursor, d);
    case Three => RecordOfThree(path, answers, cursor, d);
  }

  lemma BestImageSeparators()
    ensures ComponentStart("./best_image.png") == 2
    ensures LastDot("./best_image.png") == 12
  {
    BestImageSlash();
    BestImageDot();
  }

  lemma BestImageSlash()
    ensures AfterLast("./best_image.png", '/') == 2
  {
    assert "./best_image.png" == "." + ['/'] + "best_image.png";
    AfterLastFound(".", '/', "best_image.png");
  }

  lemma BestImageDot()
    ensures AfterLast("./best_image.png", '.') == 13
  {
    assert "./best_image.png" == "./best_image" + ['.'] + "png";
    AfterLastFound("./best_image", '.', "png");
  }

  lemma BestImageSplit()
    ensures SplitExt("./best_image.png") == ("./best_image", ".png")
  {
    var p := "./best_image.png";
    BestImageSeparators();
    assert p[2] != '.';
    assert p[..12] == "./best_image";
    assert p[12..] == ".png";
  }

  lemma BestImageName()
    ensures ImageNameOf("./best_image.png") == "best_image"
    ensures ExtensionOf("./best_image.png") == ".png"
  {
    BestImageSplit();
    BestImageRootName();
  }

  lemma BestImageRootName()
    ensures Basename("./best_image") == "best_image"
  {
    var root := "./best_image";
    assert root == "." + ['/'] + "best_image";
    AfterLastFound(".", '/', "best_image");
    assert root[2..] == "best_image";
  }

  /** The second script's test: with every answer `n`, `./best_image.png`
      gives the name `best_image`, keywords and features `n`, access
      `private`. */
  lemma BestImageAllNo(d: Draw)
    ensures ImageTwo("./best_image.png", ["n", "n", "n"], 0, d)
         == Done(Record("best_image", d.code, "n", "n", Private, UserPass, d.uuid), 3)
  {
    BestImageName();
    AllNoAnswers("./best_image.png", d);
  }

  /** Every answer `n`: keywords and features `n`, access `private`. */
  lemma AllNoAnswers(path: string, d: Draw)
    ensures ImageTwo(path, ["n", "n", "n"], 0, d)
         == Done(Record(ImageNameOf(path), d.code, "n", "n", Private, UserPass, d.uuid), 3)
  {
    var answers := ["n", "n", "n"];
    NormalizeSingleLetter();
    AnswerNAtOnce(answers, 1);
    assert Read(answers, 0) == Done("n", 1) && Read(answers, 2) == Done("n", 3);
  }

  /** An answer `n` at the second script's permission prompt ends it at once. */
  lemma AnswerNAtOnce(answers: seq<string>, cursor: nat)
    requires cursor < |answers| && answers[cursor] == "n"
    ensures AccessTwo(answers, cursor) == Done(Private, cursor + 1)
  {
    assert Lower("n") == "n" by { assert "n"[1..] == []; }
    assert Strip("n") == "n";
  }
}
