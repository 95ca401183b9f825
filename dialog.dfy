/** The user's side of the dialogue: the answers typed at the prompts, read
    one after another, and the two scripts' access-permission prompts. */
module Dialog {
  import opened Text
  import opened Records

  /** What reading from the answer stream gives: a value and the position
      of the next unread answer, or the end of the input (where Python's
      `input()` raises `EOFError`). */
  datatype Reply<T> = Done(value: T, next: nat) | EndOfInput

  /** `get_input(prompt)`: the answer at `cursor`, if there is one. */
  function Read(answers: seq<string>, cursor: nat): (r: Reply<string>)
    ensures r.Done? <==> cursor < |answers|
    ensures r.Done? ==> r.value == answers[cursor] && r.next == cursor + 1
  {
    if cursor < |answers| then Done(answers[cursor], cursor + 1) else EndOfInput
  }

  /** An answer that ends the permission prompt of the third script: `y` or
      `n` once lower-cased and stripped. */
  predicate Decisive(answer: string) {
    var p := Strip(Lower(answer));
    p == "y" || p == "n"
  }

  /** `get_permission` of the third script: ask until an answer reads `y`
      or `n` (case and surrounding whitespace ignored). */
  function Permission(answers: seq<string>, cursor: nat): (r: Reply<string>)
    ensures r.Done? ==> (r.value == Public || r.value == Private) && cursor < r.next <= |answers|
    decreases |answers| - cursor
  {
    if cursor >= |answers| then EndOfInput
    else
      var permission := Strip(Lower(answers[cursor]));
      if permission == "y" then Done(Public, cursor + 1)
      else if permission == "n" then Done(Private, cursor + 1)
      else Permission(answers, cursor + 1)
  }

  /** The first decisive answer decides, every answer before it is read and
      ignored, and the input runs out exactly when no answer is decisive. */
  lemma PermissionDecidedByFirstYesOrNo(answers: seq<string>, cursor: nat)
    ensures Permission(answers, cursor).EndOfInput? <==>
      forall k :: cursor <= k < |answers| ==> !Decisive(answers[k])
    ensures Permission(answers, cursor).Done? ==>
      var n := Permission(answers, cursor).next;
      && Decisive(answers[n - 1])
      && (forall k :: cursor <= k < n - 1 ==> !Decisive(answers[k]))
      && (Permission(answers, cursor).value == Public <==> Strip(Lower(answers[n - 1])) == "y")
  {
    PermissionEndsWhenNoneDecisive(answers, cursor);
    PermissionStopsAtFirstDecisive(answers, cursor);
    PermissionPublicOnYes(answers, cursor);
  }

  lemma {:induction false} PermissionEndsWhenNoneDecisive(answers: seq<string>, cursor: nat)
    ensures Permission(answers, cursor).EndOfInput? <==>
      forall k :: cursor <= k < |answers| ==> !Decisive(answers[k])
    decreases |answers| - cursor
  {
    if cursor < |answers| && !Decisive(answers[cursor]) {
      assert Permission(answers, cursor) == Permission(answers, cursor + 1);
      PermissionEndsWhenNoneDecisive(answers, cursor + 1);
    }
  }

  lemma {:induction false} PermissionStopsAtFirstDecisive(answers: seq<string>, cursor: nat)
    ensures Permission(answers, cursor).Done? ==>
      var n := Permission(answers, cursor).next;
      Decisive(answers[n - 1]) && forall k :: cursor <= k < n - 1 ==> !Decisive(answers[k])
    decreases |answers| - cursor
  {
    if cursor < |answers| && !Decisive(answers[cursor]) {
      assert Permission(answers, cursor) == Permission(answers, cursor + 1);
      PermissionStopsAtFirstDecisive(answers, cursor + 1);
    } else if cursor < |answers| {
      assert Permission(answers, cursor).next == cursor + 1;
    }
  }

  lemma {:induction false} PermissionPublicOnYes(answers: seq<string>, cursor: nat)
    ensures Permission(answers, cursor).Done? ==>
      var n := Permission(answers, cursor).next;
      n - 1 < |answers| && (Permission(answers, cursor).value == Public <==> Strip(Lower(answers[n - 1])) == "y")
    decreases |answers| - cursor
  {
    if cursor < |answers| {
      if !Decisive(answers[cursor]) {
        assert Permission(answers, cursor) == Permission(answers, cursor + 1);
        PermissionPublicOnYes(answers, cursor + 1);
      } else {
        assert Public[1] != Private[1];
      }
    }
  }

  /** The `while` loop of the second script's permission prompt, entered
      with the current answer `permission` and the value `access` it has
      so far; after the first answer, answers are lower-cased but not
      stripped. The assignments to `access` inside the loop require `y` or
      `n`, which the loop condition excludes, so no step changes it. */
  function Reprompt(answers: seq<string>, cursor: nat, permission: string, access: string): Reply<string>
    decreases |answers| - cursor
  {
    if permission == "y" || permission == "n" then Done(access, cursor)
    else if cursor >= |answers| then EndOfInput
    else Reprompt(answers, cursor + 1, Lower(answers[cursor]), access)
  }

  /** The permission prompt of the second script's `image_data`: the first
      answer lower-cased and stripped, then the loop, from the default
      `private`. */
  function AccessTwo(answers: seq<string>, cursor: nat): Reply<string> {
    if cursor >= |answers| then EndOfInput
    else Reprompt(answers, cursor + 1, Strip(Lower(answers[cursor])), Private)
  }

  /** An answer that ends the second script's loop once it is re-prompting. */
  predicate RepromptEnds(answer: string) {
    var p := Lower(answer);
    p == "y" || p == "n"
  }

  lemma {:induction false} RepromptKeepsAccess(answers: seq<string>, cursor: nat, permission: string, access: string)
    ensures Reprompt(answers, cursor, permission, access).Done? ==>
      Reprompt(answers, cursor, permission, access).value == access
    ensures Reprompt(answers, cursor, permission, access).Done? ==>
      var n := Reprompt(answers, cursor, permission, access).next;
      && cursor <= n <= (if cursor > |answers| then cursor else |answers|)
      && (n == cursor <==> permission == "y" || permission == "n")
      && (n > cursor ==> RepromptEnds(answers[n - 1]) && forall k :: cursor <= k < n - 1 ==> !RepromptEnds(answers[k]))
    ensures Reprompt(answers, cursor, permission, access).EndOfInput? <==>
      permission != "y" && permission != "n" && forall k :: cursor <= k < |answers| ==> !RepromptEnds(answers[k])
    decreases |answers| - cursor
  {
    if permission != "y" && permission != "n" && cursor < |answers| {
      RepromptKeepsAccess(answers, cursor + 1, Lower(answers[cursor]), access);
    }
  }

  /** Whatever is answered, the second script records `private`; the loop
      stops at the first answer (lower-cased and stripped) or at a later one
      (lower-cased only) that reads `y` or `n`. */
  lemma AccessTwoAlwaysPrivate(answers: seq<string>, cursor: nat)
    ensures AccessTwo(answers, cursor).Done? ==>
      var n := AccessTwo(answers, cursor).next;
      && AccessTwo(answers, cursor).value == Private
      && cursor < n <= |answers|
      && (n == cursor + 1 <==> Decisive(answers[cursor]))
      && (n > cursor + 1 ==> RepromptEnds(answers[n - 1]) && forall k :: cursor + 1 <= k < n - 1 ==> !RepromptEnds(answers[k]))
    ensures AccessTwo(answers, cursor).EndOfInput? <==>
      cursor >= |answers|
      || (!Decisive(answers[cursor]) && forall k :: cursor + 1 <= k < |answers| ==> !RepromptEnds(answers[k]))
  {
    if cursor < |answers| {
      RepromptKeepsAccess(answers, cursor + 1, Strip(Lower(answers[cursor])), Private);
    }
  }

  /** Answering `y` at once: the third script stores the image as public,
      the second as private. */
  lemma YesAnswerDiffers()
    ensures Permission(["y"], 0) == Done(Public, 1)
    ensures AccessTwo(["y"], 0) == Done(Private, 1)
  {
    assert Lower("y") == "y" by { assert "y"[1..] == []; }
    assert Strip("y") == "y";
  }

  /** A re-prompted answer is not stripped by the second script: `" y"`
      keeps its loop going, while the third script accepts it. */
  lemma RepromptedAnswerNotStripped()
    ensures Permission(["x", " y"], 0) == Done(Public, 2)
    ensures AccessTwo(["x", " y", "n"], 0) == Done(Private, 3)
  {
    assert Lower("x") == "x" by { assert "x"[1..] == []; }
    assert Strip("x") == "x";
    assert Lower(" y") == " y" by {
      assert " y"[1..] == "y";
      assert "y"[1..] == [];
    }
    assert Strip(" y") == "y" by {
      assert " y"[1..] == "y";
    }
    assert Lower("n") == "n" by { assert "n"[1..] == []; }
  }
}
