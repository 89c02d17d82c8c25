/**
 * The "forgot password" form: a three-step machine driven by form submissions.
 * The step lives in the form's `data-step` attribute and the username entered
 * at the first step is remembered between submissions.
 */
module ForgotPassword {
  import opened Wrappers
  import opened JsString

  const UsernameStep := "username"
  const SecurityStep := "security"
  const NewPasswordStep := "newpassword"

  /** The security questions and their stored answers kept in a user's profile. */
  datatype SecurityQuestions = SecurityQuestions(q1: string, q2: string, a1: string, a2: string)

  /** The part of a stored user profile the form reads. */
  datatype UserProfile = UserProfile(securityQs: SecurityQuestions)

  /** The user table as returned by the store: username to profile. */
  type Users = map<string, UserProfile>

  /** What the five input fields of the form hold when it is submitted. */
  datatype FormInput = FormInput(
    username: string,         // forgot-username
    answer1: string,          // security-a1-input
    answer2: string,          // security-a2-input
    newPassword: string,      // new-password
    confirmPassword: string)  // confirm-new-password

  /** The arguments the form hands to the store's password reset. */
  datatype ResetCall = ResetCall(username: string, a1: string, a2: string, newPassword: string)

  /**
   * The machine's state: the `data-step` attribute (`None` when it is absent)
   * and the remembered username.
   */
  datatype FormState = FormState(step: Option<string>, currentUsername: string)

  /** The state when the page is loaded: no `data-step` attribute, no username. */
  function Initial(): FormState {
    FormState(None, "")
  }

  /** The step a submission acts on: an absent or empty attribute counts as the username step. */
  function EffectiveStep(step: Option<string>): (r: string)
    ensures r == UsernameStep <==> step in {None, Some(""), Some(UsernameStep)}
    ensures step.Some? && step.value != "" ==> r == step.value
  {
    if step.None? || step.value == "" then UsernameStep else step.value
  }

  /** Whether the answers typed, once normalised, are the ones stored for `username`. */
  predicate AnswersMatch(users: Users, username: string, input: FormInput) {
    username in users &&
    users[username].securityQs.a1 == Normalize(input.answer1) &&
    users[username].securityQs.a2 == Normalize(input.answer2)
  }

  /**
   * One submission: the new state and the password reset the form asks for,
   * if any. `resetPassword` says whether the store's reset succeeds for the
   * given arguments (`false`: it threw).
   */
  function Transition(s: FormState, input: FormInput, users: Users, resetPassword: ResetCall -> bool)
    : (r: (FormState, Option<ResetCall>))
    // the remembered username changes only at the username step or by a successful reset
    ensures r.0.currentUsername == s.currentUsername || EffectiveStep(s.step) == UsernameStep ||
      (r.1.Some? && r.0 == FormState(Some(UsernameStep), ""))
    // a reset is asked for only for the remembered username
    ensures r.1.Some? ==> r.1.value.username == s.currentUsername
  {
    var step := EffectiveStep(s.step);
    if step == UsernameStep then
      var username := Trim(input.username);
      if username in users then (FormState(Some(SecurityStep), username), None)
      else (s.(currentUsername := username), None)
    else if step == SecurityStep then
      if AnswersMatch(users, s.currentUsername, input) then (s.(step := Some(NewPasswordStep)), None)
      else (s, None)
    else if step == NewPasswordStep then
      if input.newPassword != input.confirmPassword then (s, None)
      else
        var call := ResetCall(s.currentUsername, Normalize(input.answer1), Normalize(input.answer2), input.newPassword);
        if resetPassword(call) then (FormState(Some(UsernameStep), ""), Some(call))
        else (s, Some(call))
    else
      (s, None)
  }

  /** The form element and the username captured by its submit handler. */
  class ForgotPasswordForm {
    var step: Option<string>
    var currentUsername: string

    /** The form as the page defines it, with `data-step` possibly preset. */
    constructor (initialStep: Option<string>)
      ensures step == initialStep && currentUsername == ""
      ensures initialStep == None ==> State() == Initial()
    {
      step := initialStep;
      currentUsername := "";
    }

    function State(): FormState
      reads this
    {
      FormState(step, currentUsername)
    }

    /** Handles one submission of the form. */
    method Submit(input: FormInput, users: Users, resetPassword: ResetCall -> bool)
      returns (call: Option<ResetCall>)
      modifies this
      ensures (State(), call) == Transition(old(State()), input, users, resetPassword)
      ensures call.Some? ==> old(EffectiveStep(step)) == NewPasswordStep && call.value.username == old(currentUsername)
    {
      call := None;
      var current := EffectiveStep(step);
      if current == UsernameStep {
        var username := Trim(input.username);
        currentUsername := username;
        if username in users {
          step := Some(SecurityStep);
        }
      } else if current == SecurityStep {
        var a1 := Normalize(input.answer1);
        var a2 := Normalize(input.answer2);
        if currentUsername in users && users[currentUsername].securityQs.a1 == a1
          && users[currentUsername].securityQs.a2 == a2
        {
          step := Some(NewPasswordStep);
        }
      } else if current == NewPasswordStep {
        if input.newPassword != input.confirmPassword {
          return;
        }
        var a1 := Normalize(input.answer1);
        var a2 := Normalize(input.answer2);
        call := Some(ResetCall(currentUsername, a1, a2, input.newPassword));
        var succeeded := resetPassword(call.value);
        if succeeded {
          step := Some(UsernameStep);
          currentUsername := "";
        }
      }
    }
  }

  /** An absent or empty `data-step` is handled exactly like the username step. */
  lemma MissingStepIsUsernameStep(s: FormState, input: FormInput, users: Users, resetPassword: ResetCall -> bool)
    requires s.step in {None, Some("")}
    ensures var r := Transition(s, input, users, resetPassword);
      var viaUsername := Transition(s.(step := Some(UsernameStep)), input, users, resetPassword);
      r.1 == viaUsername.1 && r.0.currentUsername == viaUsername.0.currentUsername &&
      (viaUsername.0.step == Some(UsernameStep) ==> r.0.step == s.step) &&
      (viaUsername.0.step != Some(UsernameStep) ==> r.0.step == viaUsername.0.step)
  {
  }

  /**
   * The username step: the trimmed input becomes the remembered username
   * whether or not it is known; the step moves to `security` exactly when it
   * is a key of the user table and is left as it was otherwise.
   */
  lemma UsernameStepTransition(s: FormState, input: FormInput, users: Users, resetPassword: ResetCall -> bool)
    requires EffectiveStep(s.step) == UsernameStep
    ensures var (s', call) := Transition(s, input, users, resetPassword);
      call == None &&
      s'.currentUsername == Trim(input.username) &&
      (s'.step == Some(SecurityStep) <==> Trim(input.username) in users) &&
      (Trim(input.username) !in users ==> s'.step == s.step)
  {
  }

  /**
   * The security step: it moves to `newpassword` exactly when the remembered
   * user exists and both normalised answers equal the stored ones; otherwise
   * nothing changes. The username field is not read.
   */
  lemma SecurityStepTransition(s: FormState, input: FormInput, users: Users, resetPassword: ResetCall -> bool)
    requires EffectiveStep(s.step) == SecurityStep
    ensures var (s', call) := Transition(s, input, users, resetPassword);
      call == None &&
      s'.currentUsername == s.currentUsername &&
      (s'.step == Some(NewPasswordStep) <==>
        (s.currentUsername in users &&
         users[s.currentUsername].securityQs.a1 == Normalize(input.answer1) &&
         users[s.currentUsername].securityQs.a2 == Normalize(input.answer2))) &&
      (s'.step != Some(NewPasswordStep) ==> s' == s)
    ensures forall name :: Transition(s, input.(username := name), users, resetPassword) == Transition(s, input, users, resetPassword)
  {
  }

  /**
   * The new-password step either leaves the state as it was or, after a
   * successful reset, returns to the username step with no username.
   */
  lemma NewPasswordStepTransition(s: FormState, input: FormInput, users: Users, resetPassword: ResetCall -> bool)
    requires EffectiveStep(s.step) == NewPasswordStep
    ensures var s' := Transition(s, input, users, resetPassword).0;
      s' == s || s' == FormState(Some(UsernameStep), "")
  {
  }

  /** At the new-password step, differing password and confirmation change nothing and reset nothing. */
  lemma PasswordMismatchChangesNothing(s: FormState, input: FormInput, users: Users, resetPassword: ResetCall -> bool)
    requires EffectiveStep(s.step) == NewPasswordStep
    requires input.newPassword != input.confirmPassword
    ensures Transition(s, input, users, resetPassword) == (s, None)
  {
  }

  /**
   * The store's reset is asked for only at the new-password step with matching
   * passwords, and then for the remembered username, the normalised answers
   * currently typed and the new password.
   */
  lemma ResetCallOnlyFromNewPassword(s: FormState, input: FormInput, users: Users, resetPassword: ResetCall -> bool)
    ensures var call := Transition(s, input, users, resetPassword).1;
      call.Some? <==> (EffectiveStep(s.step) == NewPasswordStep && input.newPassword == input.confirmPassword)
    ensures var call := Transition(s, input, users, resetPassword).1;
      call.Some? ==> call.value == ResetCall(s.currentUsername, Normalize(input.answer1), Normalize(input.answer2), input.newPassword)
  {
  }

  /**
   * A successful reset sends the form back to the username step and forgets
   * the username; a failed one leaves the state as it was.
   */
  lemma ResetOutcome(s: FormState, input: FormInput, users: Users, resetPassword: ResetCall -> bool)
    requires Transition(s, input, users, resetPassword).1.Some?
    ensures var (s', call) := Transition(s, input, users, resetPassword);
      (resetPassword(call.value) ==> s' == FormState(Some(UsernameStep), "")) &&
      (!resetPassword(call.value) ==> s' == s && s'.step == Some(NewPasswordStep))
  {
  }

  /** A `data-step` value other than the three step names is ignored. */
  lemma UnknownStepChangesNothing(s: FormState, input: FormInput, users: Users, resetPassword: ResetCall -> bool)
    requires EffectiveStep(s.step) !in {UsernameStep, SecurityStep, NewPasswordStep}
    ensures Transition(s, input, users, resetPassword) == (s, None)
  {
  }

  /**
   * The steps are entered in order: `newpassword` only from `security`,
   * `security` only from `username`, and a step name the form does not know
   * is never written.
   */
  lemma StepOrder(s: FormState, input: FormInput, users: Users, resetPassword: ResetCall -> bool)
    ensures var s' := Transition(s, input, users, resetPassword).0;
      EffectiveStep(s'.step) == NewPasswordStep && EffectiveStep(s.step) != NewPasswordStep ==>
        EffectiveStep(s.step) == SecurityStep
    ensures var s' := Transition(s, input, users, resetPassword).0;
      EffectiveStep(s'.step) == SecurityStep && EffectiveStep(s.step) != SecurityStep ==>
        EffectiveStep(s.step) == UsernameStep
    ensures var s' := Transition(s, input, users, resetPassword).0;
      s'.step == s.step || s'.step in {Some(UsernameStep), Some(SecurityStep), Some(NewPasswordStep)}
  {
  }

  /**
   * A user whose stored answer is not in normal form (it has an upper-case
   * letter or surrounding whitespace) can never pass the security step.
   */
  lemma UnnormalizedAnswerNeverMatches(s: FormState, input: FormInput, users: Users, resetPassword: ResetCall -> bool)
    requires EffectiveStep(s.step) == SecurityStep && s.currentUsername in users
    requires !IsNormalized(users[s.currentUsername].securityQs.a1) || !IsNormalized(users[s.currentUsername].securityQs.a2)
    ensures Transition(s, input, users, resetPassword) == (s, None)
  {
    var qs := users[s.currentUsername].securityQs;
    if !IsNormalized(qs.a1) {
      NormalizeOnlyReachesNormalForm(qs.a1, input.answer1);
    } else {
      NormalizeOnlyReachesNormalForm(qs.a2, input.answer2);
    }
  }
}
