/** Tag normalisation: a comma-separated answer is split on ',', every
    piece is stripped, and the pieces are joined again with ','. */
module Tags {
  import opened Text
  import opened Dialog

  /** `map(lambda x: x.strip(), parts)`. */
  function StripAll(parts: seq<string>): seq<string> {
    if parts == [] then [] else [Strip(parts[0])] + StripAll(parts[1..])
  }

  /** `",".join(map(lambda x: x.strip(), answer.split(',')))`. */
  function Normalize(answer: string): string {
    Join(StripAll(Split(answer, ',')), ',')
  }

  /** `get_input_list` of the third script: read one answer and normalise it. */
  function GetInputList(answers: seq<string>, cursor: nat): (r: Reply<string>)
    ensures r.Done? <==> cursor < |answers|
    ensures r.Done? ==> r.value == Normalize(answers[cursor]) && r.next == cursor + 1
  {
    match Read(answers, cursor)
    case Done(answer, next) => Done(Normalize(answer), next)
    case EndOfInput => EndOfInput
  }

  lemma {:induction false} StripAllAt(parts: seq<string>)
    ensures |StripAll(parts)| == |parts|
    ensures forall i :: 0 <= i < |parts| ==> StripAll(parts)[i] == Strip(parts[i])
  {
    if parts != [] {
      StripAllAt(parts[1..]);
    }
  }

  lemma StripAllSeparatorFree(parts: seq<string>, sep: char)
    requires forall p :: p in parts ==> sep !in p
    ensures forall p :: p in StripAll(parts) ==> sep !in p
  {
    StripAllAt(parts);
    forall p | p in StripAll(parts) ensures sep !in p {
      var i :| 0 <= i < |parts| && StripAll(parts)[i] == p;
      StripKeepsCharacters(parts[i]);
    }
  }

  /** Splitting a normalised answer on ',' gives as many pieces as splitting
      the answer itself, and piece `i` is the stripped piece `i` of the
      answer: no piece is dropped, empty ones included. */
  lemma NormalizeKeepsPieces(answer: string)
    ensures |Split(Normalize(answer), ',')| == |Split(answer, ',')|
    ensures forall i :: 0 <= i < |Split(answer, ',')| ==>
      Split(Normalize(answer), ',')[i] == Strip(Split(answer, ',')[i])
  {
    var parts := Split(answer, ',');
    SplitPieces(answer, ',');
    StripAllAt(parts);
    StripAllSeparatorFree(parts, ',');
    SplitJoin(StripAll(parts), ',');
  }

  lemma {:induction false} StripAllIdempotent(parts: seq<string>)
    ensures StripAll(StripAll(parts)) == StripAll(parts)
  {
    if parts != [] {
      StripIdempotent(parts[0]);
      StripAllIdempotent(parts[1..]);
      assert StripAll(parts)[1..] == StripAll(parts[1..]);
    }
  }

  /** Normalising an answer that is already normalised changes nothing. */
  lemma NormalizeIdempotent(answer: string)
    ensures Normalize(Normalize(answer)) == Normalize(answer)
  {
    var parts := Split(answer, ',');
    SplitPieces(answer, ',');
    StripAllAt(parts);
    StripAllSeparatorFree(parts, ',');
    SplitJoin(StripAll(parts), ',');
    StripAllIdempotent(parts);
  }

  /** The answer `n` stays `n`, as the second script's test expects. */
  lemma NormalizeSingleLetter()
    ensures Normalize("n") == "n"
  {
    SplitNoSeparator("n", ',');
    assert Strip("n") == "n";
  }
}
