/** `Quiz.save` (quiz/models.py:70-74): a quiz without an access code gets
    the first six characters of a fresh UUID, upper-cased and without
    dashes, before it is written. The UUID is an input here; the field is
    `access_code`, at most 8 characters, unique, and may be empty or null
    (quiz/models.py:62-68). */
module QuizModel {
  import opened Base
  import opened Access

  const CodeMaxLength: nat := 8
  const CodeLength: nat := 6

  predicate IsLowerHex(c: char) {
    ('0' <= c <= '9') || ('a' <= c <= 'f')
  }

  predicate IsUpperHex(c: char) {
    ('0' <= c <= '9') || ('A' <= c <= 'F')
  }

  /** `str(uuid.uuid4())`: 32 lower-case hex digits in groups of 8, 4, 4,
      4 and 12 joined by dashes. */
  predicate IsUuidText(u: string) {
    && |u| == 36
    && (forall k :: 0 <= k < 36 ==> (k == 8 || k == 13 || k == 18 || k == 23) == (u[k] == '-'))
    && (forall k :: 0 <= k < 36 && !(k == 8 || k == 13 || k == 18 || k == 23) ==> IsLowerHex(u[k]))
  }

  /** `.replace('-', '')`: keeps exactly the characters that are not
      dashes; text without a dash is left as it is, a lone dash goes. */
  function RemoveDashes(s: string): (r: string)
    ensures |r| <= |s|
    ensures forall c :: c in r <==> c in s && c != '-'
    ensures (forall k :: 0 <= k < |s| ==> s[k] != '-') ==> r == s
    ensures s == "-" ==> r == []
  {
    if s == [] then []
    else (if s[0] == '-' then [] else [s[0]]) + RemoveDashes(s[1..])
  }

  /** Removing dashes from two pieces and joining them is removing dashes
      from the joined text: with the two cases above, this fixes the result
      character by character, in order. */
  lemma {:induction false} RemoveDashesAppend(a: string, b: string)
    ensures RemoveDashes(a + b) == RemoveDashes(a) + RemoveDashes(b)
  {
    if a == [] {
      assert a + b == b;
    } else {
      var head: string := if a[0] == '-' then [] else [a[0]];
      RemoveDashesAppend(a[1..], b);
      assert (a + b)[0] == a[0] && (a + b)[1..] == a[1..] + b;
      calc {
        RemoveDashes(a + b);
        head + RemoveDashes(a[1..] + b);
        head + (RemoveDashes(a[1..]) + RemoveDashes(b));
        (head + RemoveDashes(a[1..])) + RemoveDashes(b);
        RemoveDashes(a) + RemoveDashes(b);
      }
    }
  }

  /** Removing dashes keeps a prefix that has none. */
  lemma {:induction false} RemoveDashesKeepsPrefix(s: string, k: nat)
    requires k <= |s|
    requires forall j :: 0 <= j < k ==> s[j] != '-'
    ensures k <= |RemoveDashes(s)| && RemoveDashes(s)[..k] == s[..k]
  {
    if k > 0 {
      RemoveDashesKeepsPrefix(s[1..], k - 1);
      assert RemoveDashes(s) == [s[0]] + RemoveDashes(s[1..]);
    }
  }

  /** `str(uuid).upper().replace('-', '')[:6]`. */
  function CodeFromUuid(u: string): (r: string)
    requires IsUuidText(u)
    ensures |r| == CodeLength && |r| <= CodeMaxLength
    ensures forall k :: 0 <= k < |r| ==> IsUpperHex(r[k])
    ensures r == Upper(u[..CodeLength])
  {
    var up := Upper(u);
    var clean := RemoveDashes(up);
    RemoveDashesKeepsPrefix(up, 8);
    assert clean[..6] == up[..6];
    assert forall k :: 0 <= k < 6 ==> IsLowerHex(u[k]);
    clean[..6]
  }

  /** A generated code is what a student types back: stripping and
      upper-casing it, as `join_with_code` does, gives it again, and so does
      typing it in lower case with spaces around. */
  lemma CodeIsNormalized(u: string, pre: string, post: string)
    requires IsUuidText(u)
    requires forall k :: 0 <= k < |pre| ==> IsSpace(pre[k])
    requires forall k :: 0 <= k < |post| ==> IsSpace(post[k])
    ensures NormalizeCode(CodeFromUuid(u)) == CodeFromUuid(u)
    ensures NormalizeCode(pre + Lower(CodeFromUuid(u)) + post) == CodeFromUuid(u)
  {
    var c := CodeFromUuid(u);
    var low := Lower(c);
    assert !IsSpace(c[0]) && !IsSpace(c[|c| - 1]);
    StripFixedPoint(c);
    assert Upper(c) == c;
    assert !IsSpace(low[0]) && !IsSpace(low[|low| - 1]);
    StripPadded(pre, low, post);
    assert Upper(low) == c;
  }

  /** The code a save leaves: an existing non-empty code is kept, and a
      missing or empty one is replaced by a generated one; either way the
      quiz then has a non-empty code. */
  function AssignedCode(current: Option<string>, u: string): (r: string)
    requires IsUuidText(u)
    ensures r != []
    ensures current.Some? && current.value != [] ==> r == current.value
    ensures (current.None? || current.value == []) ==> r == CodeFromUuid(u)
  {
    if current.Some? && current.value != [] then current.value else CodeFromUuid(u)
  }

  /** A quiz row being saved. */
  class QuizRecord {
    var accessCode: Option<string>

    constructor (code: Option<string>)
      ensures accessCode == code
    {
      accessCode := code;
    }

    /** `Quiz.save`: assigns a code when there is none, then writes the row;
        the write fails (IntegrityError) when another quiz already has the
        code, which `taken` lists. */
    method Save(u: string, taken: set<string>) returns (saved: bool)
      requires IsUuidText(u)
      modifies this
      ensures accessCode == Some(AssignedCode(old(accessCode), u))
      ensures saved <==> accessCode.value !in taken
    {
      if accessCode.None? || accessCode.value == [] {
        accessCode := Some(CodeFromUuid(u));
      }
      saved := accessCode.value !in taken;
    }
  }

  /** Saving twice assigns no new code: the second save keeps the first
      one's code, whatever UUID it is given. */
  lemma SaveIsStable(current: Option<string>, u1: string, u2: string)
    requires IsUuidText(u1) && IsUuidText(u2)
    ensures AssignedCode(Some(AssignedCode(current, u1)), u2) == AssignedCode(current, u1)
  {
  }

  /** A student who types a generated code back, in lower case and with
      spaces around it, joins the quiz that has it. */
  lemma TypedCodeJoins(u: string, pre: string, post: string, student: int, quiz: int,
                       codes: map<string, int>, allowed: Enrolment)
    requires IsUuidText(u)
    requires forall k :: 0 <= k < |pre| ==> IsSpace(pre[k])
    requires forall k :: 0 <= k < |post| ==> IsSpace(post[k])
    requires CodeFromUuid(u) in codes && codes[CodeFromUuid(u)] == quiz
    ensures JoinWithCode(true, Some(pre + Lower(CodeFromUuid(u)) + post), student, codes, allowed)
      == (Joined(quiz), allowed + {(quiz, student)})
  {
    CodeIsNormalized(u, pre, post);
  }
}
