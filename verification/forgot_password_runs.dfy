/**
 * Sequences of submissions of the forgot-password form. Each submission is
 * treated as running to completion before the next one starts, and the user
 * table and the outcome of the password reset may differ from one submission
 * to the next.
 */
module ForgotPasswordRuns {
  import opened Wrappers
  import opened JsString
  import opened ForgotPassword

  /** One submission: the fields, the user table read during it, and how a reset would end. */
  datatype Submission = Submission(input: FormInput, users: Users, resetPassword: ResetCall -> bool)

  function After(s: FormState, sub: Submission): FormState {
    Transition(s, sub.input, sub.users, sub.resetPassword).0
  }

  function CallDuring(s: FormState, sub: Submission): Option<ResetCall> {
    Transition(s, sub.input, sub.users, sub.resetPassword).1
  }

  /** The state after the submissions `subs`, in order, starting from `s`. */
  function Run(s: FormState, subs: seq<Submission>): FormState
    decreases |subs|
  {
    if subs == [] then s else After(Run(s, subs[..|subs| - 1]), subs[|subs| - 1])
  }

  /** Submission `i` of the run was at the username step and accepted `name` as a known user. */
  predicate UsernameAccepted(s0: FormState, subs: seq<Submission>, i: int, name: string) {
    0 <= i < |subs| &&
    EffectiveStep(Run(s0, subs[..i]).step) == UsernameStep &&
    Trim(subs[i].input.username) == name && name in subs[i].users
  }

  /** Submission `j` of the run was at the security step for `name` and its answers matched. */
  predicate AnswersAccepted(s0: FormState, subs: seq<Submission>, j: int, name: string) {
    0 <= j < |subs| &&
    var t := Run(s0, subs[..j]);
    EffectiveStep(t.step) == SecurityStep && t.currentUsername == name &&
    AnswersMatch(subs[j].users, name, subs[j].input)
  }

  /** The form is past the username step and remembers `name`. */
  predicate InSession(t: FormState, name: string) {
    t.currentUsername == name &&
    (EffectiveStep(t.step) == SecurityStep || EffectiveStep(t.step) == NewPasswordStep)
  }

  /**
   * After submission `i` and up to the state before submission `n`, the form
   * never went back to the username step and kept remembering `name`.
   */
  predicate KeptSince(s0: FormState, subs: seq<Submission>, i: int, n: int, name: string) {
    0 <= i < n <= |subs| &&
    forall m :: i < m <= n ==> InSession(Run(s0, subs[..m]), name)
  }

  /**
   * `name` was accepted at a username step and then at a security step, both
   * before submission `n`, and the form has stayed with `name` past the
   * username step ever since that username step.
   */
  predicate VerifiedBefore(s0: FormState, subs: seq<Submission>, n: int, name: string) {
    exists j :: 0 <= j < n && AnswersAccepted(s0, subs, j, name) &&
      exists i :: 0 <= i < j && UsernameAccepted(s0, subs, i, name) && KeptSince(s0, subs, i, n, name)
  }

  /** What the run has established about the remembered username by the time it reaches submission `n`. */
  predicate Vouched(s0: FormState, subs: seq<Submission>, n: int)
    requires 0 <= n <= |subs|
  {
    var t := Run(s0, subs[..n]);
    (EffectiveStep(t.step) == SecurityStep ==>
      exists i :: 0 <= i < n && UsernameAccepted(s0, subs, i, t.currentUsername) &&
        KeptSince(s0, subs, i, n, t.currentUsername)) &&
    (EffectiveStep(t.step) == NewPasswordStep ==> VerifiedBefore(s0, subs, n, t.currentUsername))
  }

  /** A state from which the run starts afresh: not already past the username step. */
  predicate StartsFresh(s0: FormState) {
    EffectiveStep(s0.step) != SecurityStep && EffectiveStep(s0.step) != NewPasswordStep
  }

  /** Extending a run by one submission applies that submission to the state reached. */
  lemma RunSnoc(s0: FormState, subs: seq<Submission>, n: int)
    requires 0 <= n < |subs|
    ensures Run(s0, subs[..n + 1]) == After(Run(s0, subs[..n]), subs[n])
  {
    assert subs[..n + 1][..n] == subs[..n];
  }

  /** One more submission that leaves the form in session with `name` extends `KeptSince`. */
  lemma KeptSinceGrows(s0: FormState, subs: seq<Submission>, i: int, n: int, name: string)
    requires KeptSince(s0, subs, i, n, name)
    requires n < |subs| && InSession(Run(s0, subs[..n + 1]), name)
    ensures KeptSince(s0, subs, i, n + 1, name)
  {
  }

  /** One more submission that leaves the form in session with `name` keeps `VerifiedBefore`. */
  lemma VerifiedBeforeGrows(s0: FormState, subs: seq<Submission>, n: int, name: string)
    requires VerifiedBefore(s0, subs, n, name)
    requires n < |subs| && InSession(Run(s0, subs[..n + 1]), name)
    ensures VerifiedBefore(s0, subs, n + 1, name)
  {
    var j :| 0 <= j < n && AnswersAccepted(s0, subs, j, name) &&
      exists i :: 0 <= i < j && UsernameAccepted(s0, subs, i, name) && KeptSince(s0, subs, i, n, name);
    var i :| 0 <= i < j && UsernameAccepted(s0, subs, i, name) && KeptSince(s0, subs, i, n, name);
    KeptSinceGrows(s0, subs, i, n, name);
    assert 0 <= j < n + 1;
  }

  /** A submission at the username step keeps `Vouched`. */
  lemma VouchedAfterUsername(s0: FormState, subs: seq<Submission>, m: int)
    requires 0 <= m < |subs|
    requires EffectiveStep(Run(s0, subs[..m]).step) == UsernameStep
    ensures Vouched(s0, subs, m + 1)
  {
    var t, sub := Run(s0, subs[..m]), subs[m];
    RunSnoc(s0, subs, m);
    UsernameStepTransition(t, sub.input, sub.users, sub.resetPassword);
    var t' := After(t, sub);
    if EffectiveStep(t'.step) == SecurityStep {
      assert UsernameAccepted(s0, subs, m, t'.currentUsername);
      assert KeptSince(s0, subs, m, m + 1, t'.currentUsername) by {
        forall k | m < k <= m + 1 ensures InSession(Run(s0, subs[..k]), t'.currentUsername) {
          assert k == m + 1;
        }
      }
    }
  }

  /** A submission at the security step keeps `Vouched`. */
  lemma VouchedAfterSecurity(s0: FormState, subs: seq<Submission>, m: int)
    requires 0 <= m < |subs|
    requires EffectiveStep(Run(s0, subs[..m]).step) == SecurityStep
    requires Vouched(s0, subs, m)
    ensures Vouched(s0, subs, m + 1)
  {
    var t, sub := Run(s0, subs[..m]), subs[m];
    var name := t.currentUsername;
    RunSnoc(s0, subs, m);
    SecurityStepTransition(t, sub.input, sub.users, sub.resetPassword);
    var i :| 0 <= i < m && UsernameAccepted(s0, subs, i, name) && KeptSince(s0, subs, i, m, name);
    var t' := After(t, sub);
    assert InSession(t', name);
    KeptSinceGrows(s0, subs, i, m, name);
    if EffectiveStep(t'.step) == NewPasswordStep {
      assert AnswersAccepted(s0, subs, m, name);
      assert 0 <= i < m && UsernameAccepted(s0, subs, i, name) && KeptSince(s0, subs, i, m + 1, name);
    } else {
      assert 0 <= i < m + 1 && UsernameAccepted(s0, subs, i, name) && KeptSince(s0, subs, i, m + 1, name);
    }
  }

  /** A submission at the new-password step keeps `Vouched`. */
  lemma VouchedAfterNewPassword(s0: FormState, subs: seq<Submission>, m: int)
    requires 0 <= m < |subs|
    requires EffectiveStep(Run(s0, subs[..m]).step) == NewPasswordStep
    requires Vouched(s0, subs, m)
    ensures Vouched(s0, subs, m + 1)
  {
    var t, sub := Run(s0, subs[..m]), subs[m];
    RunSnoc(s0, subs, m);
    NewPasswordStepTransition(t, sub.input, sub.users, sub.resetPassword);
    if After(t, sub) == t {
      VerifiedBeforeGrows(s0, subs, m, t.currentUsername);
    }
  }

  /**
   * Invariant of every run that starts fresh: at the security step the
   * remembered username was accepted earlier, and at the new-password step
   * its answers were accepted after that; in both cases the form has stayed
   * past the username step with that name since it was accepted.
   */
  lemma {:induction false} VouchedInvariant(s0: FormState, subs: seq<Submission>, n: int)
    requires StartsFresh(s0)
    requires 0 <= n <= |subs|
    ensures Vouched(s0, subs, n)
  {
    if n == 0 {
      assert subs[..0] == [];
    } else {
      var m := n - 1;
      VouchedInvariant(s0, subs, m);
      var t, sub := Run(s0, subs[..m]), subs[m];
      var step := EffectiveStep(t.step);
      if step == UsernameStep {
        VouchedAfterUsername(s0, subs, m);
      } else if step == SecurityStep {
        VouchedAfterSecurity(s0, subs, m);
      } else if step == NewPasswordStep {
        VouchedAfterNewPassword(s0, subs, m);
      } else {
        RunSnoc(s0, subs, m);
        UnknownStepChangesNothing(t, sub.input, sub.users, sub.resetPassword);
      }
    }
  }

  /**
   * In a run that starts fresh, every password reset the form asks for is for
   * a username that an earlier submission accepted at the username step and a
   * later one (still before the reset) accepted at the security step; from
   * that username step up to the reset the form never went back to the
   * username step and kept remembering that name.
   */
  lemma ResetOnlyAfterVerification(s0: FormState, subs: seq<Submission>, k: int)
    requires StartsFresh(s0)
    requires 0 <= k < |subs|
    requires CallDuring(Run(s0, subs[..k]), subs[k]).Some?
    ensures VerifiedBefore(s0, subs, k, CallDuring(Run(s0, subs[..k]), subs[k]).value.username)
  {
    var t := Run(s0, subs[..k]);
    var sub := subs[k];
    ResetCallOnlyFromNewPassword(t, sub.input, sub.users, sub.resetPassword);
    VouchedInvariant(s0, subs, k);
  }

  /** A step name the form does not know. */
  predicate IsUnknownStep(s: FormState) {
    var step := EffectiveStep(s.step);
    step != UsernameStep && step != SecurityStep && step != NewPasswordStep
  }

  /** One submission in an unknown step: nothing changes, no reset is asked for. */
  lemma UnknownStepSubmission(s: FormState, sub: Submission)
    requires IsUnknownStep(s)
    ensures After(s, sub) == s && CallDuring(s, sub) == None
  {
    UnknownStepChangesNothing(s, sub.input, sub.users, sub.resetPassword);
  }

  /** In an unknown step, no number of submissions changes the state. */
  lemma {:induction false} UnknownStepRunFrozen(s0: FormState, subs: seq<Submission>)
    requires IsUnknownStep(s0)
    ensures Run(s0, subs) == s0
    decreases |subs|
  {
    if subs != [] {
      var init := subs[..|subs| - 1];
      UnknownStepRunFrozen(s0, init);
      UnknownStepSubmission(s0, subs[|subs| - 1]);
    }
  }

  /**
   * A `data-step` value the form does not know freezes it: after any number
   * of submissions the state is unchanged, and no submission asks for a reset.
   */
  lemma UnknownStepIsAbsorbing(s0: FormState, subs: seq<Submission>)
    requires IsUnknownStep(s0)
    ensures Run(s0, subs) == s0
    ensures forall k :: 0 <= k < |subs| ==> CallDuring(Run(s0, subs[..k]), subs[k]) == None
  {
    UnknownStepRunFrozen(s0, subs);
    forall k | 0 <= k < |subs|
      ensures CallDuring(Run(s0, subs[..k]), subs[k]) == None
    {
      UnknownStepRunFrozen(s0, subs[..k]);
      UnknownStepSubmission(s0, subs[k]);
    }
  }

  /** Three submissions in a row, applied one after the other. */
  lemma RunOfThree(s0: FormState, sub: Submission)
    ensures Run(s0, [sub, sub, sub]) == After(After(After(s0, sub), sub), sub)
  {
    var subs := [sub, sub, sub];
    RunSnoc(s0, subs, 0);
    RunSnoc(s0, subs, 1);
    RunSnoc(s0, subs, 2);
    assert subs[..0] == [] && subs[..3] == subs;
  }

  /**
   * The intended path works: submitting three times a form whose fields hold
   * a known username, answers that normalise to the stored ones and two equal
   * passwords asks for exactly one reset, at the third submission, for that
   * user. A successful reset leaves the form back at the username step with
   * no username; a failed one leaves it at the new-password step for that user.
   */
  lemma HappyPath(s0: FormState, input: FormInput, users: Users, resetPassword: ResetCall -> bool)
    requires EffectiveStep(s0.step) == UsernameStep
    requires AnswersMatch(users, Trim(input.username), input)
    requires input.newPassword == input.confirmPassword
    ensures var sub := Submission(input, users, resetPassword);
      var name := Trim(input.username);
      var call := ResetCall(name, Normalize(input.answer1), Normalize(input.answer2), input.newPassword);
      var s1 := After(s0, sub);
      var s2 := After(s1, sub);
      s1 == FormState(Some(SecurityStep), name) &&
      s2 == FormState(Some(NewPasswordStep), name) &&
      CallDuring(s0, sub) == None && CallDuring(s1, sub) == None &&
      CallDuring(s2, sub) == Some(call) &&
      Run(s0, [sub, sub, sub]) == if resetPassword(call) then FormState(Some(UsernameStep), "") else s2
  {
    var sub := Submission(input, users, resetPassword);
    var name := Trim(input.username);
    UsernameStepTransition(s0, input, users, resetPassword);
    var s1 := After(s0, sub);
    assert s1 == FormState(Some(SecurityStep), name);
    SecurityStepTransition(s1, input, users, resetPassword);
    var s2 := After(s1, sub);
    assert s2 == FormState(Some(NewPasswordStep), name);
    ResetCallOnlyFromNewPassword(s2, input, users, resetPassword);
    ResetOutcome(s2, input, users, resetPassword);
    RunOfThree(s0, sub);
  }

  /** The form as loaded starts fresh, so the guarantees about fresh runs apply to it. */
  lemma InitialStartsFresh()
    ensures StartsFresh(Initial()) && EffectiveStep(Initial().step) == UsernameStep
  {
  }
}
