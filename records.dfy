/** The record schema of the image table and the facts derived from an
    image's path: its table name and whether its extension is accepted. */
module Records {
  import opened Text

  newtype byte = x: int | 0 <= x < 256

  /** Opaque binary data: the Fernet ciphertext stored as `image_code`. */
  type Blob = seq<byte>

  /** A 128-bit identifier, as `uuid.uuid4()` produces. */
  newtype Uuid = x: int | 0 <= x < 0x1_0000_0000_0000_0000_0000_0000_0000_0000

  /** One row of the table: the seven columns every record has. */
  datatype Record = Record(
    imageName: string,
    imageCode: Blob,
    imageKeywords: string,
    imageFeatures: string,
    imageAccess: string,
    userPass: string,
    uniqueUuid: Uuid)

  /** The values an ingestion takes from outside the model: the ciphertext
      of the image under the current key, and a fresh identifier. */
  datatype Draw = Draw(code: Blob, uuid: Uuid)

  const UserPass: string := "12345"
  const Public: string := "public"
  const Private: string := "private"

  /** The accepted extensions, compared case-sensitively. */
  const ImageFormats: seq<string> := [".bmp", ".jpeg", ".jpg", ".png", ".tiff"]

  /** The text columns a search can be run over. */
  datatype Column = NameColumn | KeywordsColumn | FeaturesColumn | AccessColumn | PassColumn

  function Field(r: Record, c: Column): string {
    match c
    case NameColumn => r.imageName
    case KeywordsColumn => r.imageKeywords
    case FeaturesColumn => r.imageFeatures
    case AccessColumn => r.imageAccess
    case PassColumn => r.userPass
  }

  /** `os.path.splitext(path)[1]`. */
  function ExtensionOf(path: string): string {
    SplitExt(path).1
  }

  /** `os.path.basename(os.path.splitext(path)[0])`: the name both scripts
      give an image and compare against the table. */
  function ImageNameOf(path: string): string {
    Basename(SplitExt(path).0)
  }

  predicate HasImageFormat(path: string) {
    ExtensionOf(path) in ImageFormats
  }

  lemma {:induction false} ComponentStartOfPrefix(p: string, d: nat)
    requires ComponentStart(p) <= d <= |p|
    ensures ComponentStart(p[..d]) == ComponentStart(p)
  {
    if d < |p| {
      var q := p[..|p| - 1];
      assert p[|p| - 1] in p[ComponentStart(p)..];
      assert ComponentStart(p) == ComponentStart(q);
      ComponentStartOfPrefix(q, d);
      assert q[..d] == p[..d];
    } else {
      assert p[..d] == p;
    }
  }

  /** The image name is the last path component with its extension cut
      off: putting the extension back gives `os.path.basename(path)`. */
  lemma NameIsBasenameWithoutExtension(path: string)
    ensures ImageNameOf(path) + ExtensionOf(path) == Basename(path)
    ensures '/' !in ImageNameOf(path)
  {
    var (root, ext) := SplitExt(path);
    SplitExtShape(path);
    if ext != [] {
      var s := ComponentStart(path);
      assert root == path[..|root|];
      ComponentStartOfPrefix(path, |root|);
      assert Basename(root) == path[s..|root|];
      assert path[s..] == path[s..|root|] + path[|root|..];
    }
  }

  /** An accepted image's name is never empty: `splitext` only cuts an
      extension when some character other than '.' comes before it. */
  lemma AcceptedNameNonEmpty(path: string)
    requires HasImageFormat(path)
    ensures ImageNameOf(path) != []
  {
    var (root, ext) := SplitExt(path);
    SplitExtShape(path);
    var k :| ComponentStart(path) <= k < LastDot(path) && path[k] != '.';
    ComponentStartOfPrefix(path, |root|);
  }
}
