/** Invite-code allocation: six characters drawn from [A-Z0-9], redrawn until
    no room already uses the code.

    Math.random() is modelled by the indices it selects: one attempt is the
    sequence of six indices into the alphabet that the generator draws, and the
    retry loop consumes attempts in order. */
module InviteCode {

  const Alphabet: string := "ABCDEFGHIJKLMNOPQRSTUVWXYZ0123456789"
  const CodeLength: nat := 6

  /** A well-formed invite code: six characters of the alphabet. */
  predicate IsInviteCode(s: string) {
    |s| == CodeLength && forall i :: 0 <= i < |s| ==> s[i] in Alphabet
  }

  /** One attempt of the generator: six indices in [0, 36), the values of
      (int) (Math.random() * chars.length()). */
  predicate ValidDraws(d: seq<nat>) {
    |d| == CodeLength && forall i :: 0 <= i < |d| ==> d[i] < |Alphabet|
  }

  /** The code an attempt spells. */
  function CodeOf(d: seq<nat>): (s: string)
    requires ValidDraws(d)
    ensures IsInviteCode(s)
  {
    seq(CodeLength, i requires 0 <= i < CodeLength => Alphabet[d[i]])
  }

  predicate ValidAttempts(attempts: seq<seq<nat>>) {
    forall k :: 0 <= k < |attempts| ==> ValidDraws(attempts[k])
  }

  /** The random source eventually produces a code nobody uses. */
  predicate SomeAttemptFresh(attempts: seq<seq<nat>>, taken: set<string>)
    requires ValidAttempts(attempts)
  {
    exists k :: 0 <= k < |attempts| && CodeOf(attempts[k]) !in taken
  }

  /** generateRandomCode: appends one drawn character per iteration. */
  method GenerateRandomCode(draws: seq<nat>) returns (code: string)
    requires ValidDraws(draws)
    ensures IsInviteCode(code)
    ensures forall i :: 0 <= i < CodeLength ==> code[i] == Alphabet[draws[i]]
  {
    code := "";
    for i := 0 to CodeLength
      invariant |code| == i
      invariant forall j :: 0 <= j < i ==> code[j] == Alphabet[draws[j]]
    {
      code := code + [Alphabet[draws[i]]];
    }
  }

  /** generateInviteCode: the do-while loop that redraws while the code is taken.
      It returns the first attempt whose code no room uses, and how many
      attempts were discarded before it. */
  method GenerateInviteCode(taken: set<string>, attempts: seq<seq<nat>>) returns (code: string, discarded: nat)
    requires ValidAttempts(attempts)
    requires SomeAttemptFresh(attempts, taken)
    ensures IsInviteCode(code) && code !in taken
    ensures discarded < |attempts| && code == CodeOf(attempts[discarded])
    ensures forall k :: 0 <= k < discarded ==> CodeOf(attempts[k]) in taken
  {
    discarded := 0;
    code := GenerateRandomCode(attempts[0]);
    assert code == CodeOf(attempts[0]);
    while code in taken
      invariant 0 <= discarded < |attempts|
      invariant code == CodeOf(attempts[discarded])
      invariant forall k :: 0 <= k < discarded ==> CodeOf(attempts[k]) in taken
      decreases |attempts| - discarded
    {
      ghost var k :| 0 <= k < |attempts| && CodeOf(attempts[k]) !in taken;
      assert discarded < k;
      discarded := discarded + 1;
      code := GenerateRandomCode(attempts[discarded]);
      assert code == CodeOf(attempts[discarded]);
    }
  }
}
