# Forgot-password step machine

This project models the submit handler of the vinyl catalog's "forgot password" form (`app.js`).
The form walks the user through three steps. Its state is two values:
- the step, kept in the form's `data-step` attribute;
- the username remembered between submissions in the handler's `currentUsername` variable.

Each submission does one of three things:

- **`username`** (also used when the attribute is absent or empty): trims the typed username and remembers it. If it is a key of the user table, the form moves to `security`.
- **`security`**: lower-cases and trims both typed answers. If the remembered user exists and both answers equal the stored ones, the form moves to `newpassword`.
- **`newpassword`**: if the password and its confirmation differ, nothing happens. Otherwise it asks the store to reset the password for the remembered username, passing the normalised answers currently typed and the new password. A successful reset sends the form back to `username` and forgets the username. A failed one leaves everything as it was.

Any other `data-step` value makes a submission do nothing.

Files:

- `wrappers.dfy`: `Option`.
- `js_string.dfy` (module `JsString`):
  - JavaScript's `trim`, over ECMAScript's WhiteSpace and LineTerminator characters;
  - `toLowerCase`, restricted to ASCII;
  - answer normalisation `toLowerCase().trim()`.
- `forgot_password.dfy` (module `ForgotPassword`):
  - the data: user profiles with their security questions, the form's fields, the arguments of a reset, and the state;
  - `Transition`, one submission as a pure function;
  - the class `ForgotPasswordForm`, whose fields `step` and `currentUsername` are updated in place by `Submit`, which is proved to agree with `Transition`;
  - one lemma per property of a single submission.
- `forgot_password_runs.dfy` (module `ForgotPasswordRuns`): sequences of submissions. The main theorem covers every run that starts at the username step, meaning an absent, empty or `username` `data-step`, as in `Initial()`. It also covers runs that start at a step value the form does not know. In such a run, a password reset is only asked for a username that was accepted at the username step and then passed the security step. Both must happen earlier in the same run. From that username step up to the reset, the form never returns to the username step and keeps remembering that name.

A detail the model makes visible: the reset receives the answers typed in the fields at the moment of the final submission (`app.js:52-53`). These need not be the answers that passed the security step (`ResetCallOnlyFromNewPassword`). Whether the store checks them again is not visible here.

## Model

| member | source | states |
|---|---|---|
| `JsString.TrimStartSpec` | app.js:13 | trimming the start removes exactly the leading whitespace: the result is the longest suffix that does not begin with whitespace |
| `JsString.TrimEndSpec` | app.js:13 | trimming the end removes exactly the trailing whitespace: the result is the longest prefix that does not end with whitespace |
| `JsString.TrimBounds` | app.js:13 | `trim` returns the part of the string left after removing all leading and trailing whitespace |
| `JsString.TrimFixedPoint` | app.js:13 | `trim` returns its argument unchanged exactly when the argument has no whitespace at either end |
| `JsString.TrimIsTrimmed` | app.js:13 | the result of `trim` has no whitespace at either end |
| `JsString.TrimIdempotent` | app.js:13 | trimming twice gives the same result as trimming once |
| `JsString.TrimIgnoresPadding` | app.js:13 | adding whitespace around a string does not change its trimmed form |
| `JsString.LowerShape` | app.js:28-29 | lower-casing keeps the length, leaves no upper-case letter and changes no character that is not an upper-case letter |
| `JsString.LowerIdempotent` | app.js:28-29 | lower-casing twice gives the same result as lower-casing once |
| `JsString.TrimLowerCommute` | app.js:28-29 | `toLowerCase().trim()` equals `trim().toLowerCase()` |
| `JsString.NormalizeIdempotent` | app.js:28-29 | a normalised answer is in normal form, and normalising it again changes nothing |
| `JsString.NormalizeOnlyReachesNormalForm` | app.js:34 | a stored answer that is not in normal form is never equal to a normalised typed answer |
| `JsString.NormalizeIgnoresCaseAndPadding` | app.js:28-29 | two answers whose cores are equal up to ASCII letter case, each with any whitespace around it, normalise to the same string |
| `JsString.NormalizeEqualIff` | app.js:28-34 | two answers normalise alike exactly when their trimmed forms are equal up to ASCII letter case, so an answer passes only if it differs from the stored one in case and surrounding whitespace alone |
| `ForgotPassword.EffectiveStep` | app.js:9 | the step used is `username` exactly when the attribute is absent, empty or `username`; any other non-empty value is used as it is |
| `ForgotPassword.Transition` | app.js:6-66 | one submission as the if/else-if chain, giving the new state and the reset asked for; the remembered username changes only at the username step or by a successful reset, and a reset is asked for only for the remembered username |
| `ForgotPassword.ForgotPasswordForm.constructor` | app.js:2-4 | a new form keeps its preset `data-step` (if any) and starts with an empty remembered username; with no preset it is in the initial state |
| `ForgotPassword.ForgotPasswordForm.Submit` | app.js:6-66 | one submission updates `step` and `currentUsername` in place and asks for the reset exactly as `Transition` says; a reset is asked for only at the new-password step, for the remembered username |
| `ForgotPassword.MissingStepIsUsernameStep` | app.js:9 | with the attribute absent or empty, a submission does what it does at `username`, except that a rejected username leaves the attribute as it was |
| `ForgotPassword.UsernameStepTransition` | app.js:11-25 | at `username`, the trimmed input is remembered whether or not the user exists; the step becomes `security` exactly when that name is a key of the user table and is unchanged otherwise; no reset |
| `ForgotPassword.SecurityStepTransition` | app.js:26-40 | at `security`, the step becomes `newpassword` exactly when the remembered user exists and both normalised answers equal the stored ones; otherwise nothing changes; the username field is not read; no reset |
| `ForgotPassword.NewPasswordStepTransition` | app.js:41-66 | at `newpassword`, the state either stays as it was or returns to `username` with no remembered username |
| `ForgotPassword.PasswordMismatchChangesNothing` | app.js:46-49 | differing password and confirmation change nothing and ask for no reset |
| `ForgotPassword.ResetCallOnlyFromNewPassword` | app.js:51-54 | a reset is asked for exactly at `newpassword` with matching passwords; its arguments are the remembered username, the normalised answers in the fields and the new password |
| `ForgotPassword.ResetOutcome` | app.js:54-65 | after a successful reset the form is at `username` with username `''`; after a failed one the state is unchanged and the step stays `newpassword` |
| `ForgotPassword.UnknownStepChangesNothing` | app.js:11-66 | a step value that is none of the three names causes no change and no reset |
| `ForgotPassword.StepOrder` | app.js:11-66 | `newpassword` is entered only from `security`, and `security` only from `username`; the handler writes no step value other than the three names |
| `ForgotPassword.UnnormalizedAnswerNeverMatches` | app.js:28-40 | if a user's stored answer has upper-case letters or surrounding whitespace, that user never gets past `security` |
| `ForgotPasswordRuns.VouchedInvariant` | app.js:6-66 | in every run that starts before `security`, being at `security` means the remembered name was accepted earlier at `username`; being at `newpassword` also means its answers were accepted after that; since that acceptance, the form has stayed past `username` with that name |
| `ForgotPasswordRuns.ResetOnlyAfterVerification` | app.js:11-54 | in such a run, every reset asked for is for a name that an earlier submission accepted at `username` and a later one (still before the reset) accepted at `security`; between that username step and the reset, the form never returned to `username` and kept remembering the name |
| `ForgotPasswordRuns.UnknownStepIsAbsorbing` | app.js:9-66 | starting from an unknown step value, no sequence of submissions changes the state or asks for a reset |
| `ForgotPasswordRuns.HappyPath` | app.js:11-65 | three submissions with a known username, matching answers and equal passwords pass through `security` and `newpassword` for that user and ask for exactly one reset, at the third submission; a successful reset ends at `username` with no remembered username, and a failed one stays at `newpassword` for that user |
| `ForgotPasswordRuns.InitialStartsFresh` | app.js:4-9 | the initial state (no `data-step`, username `''`) is at the username step, so the theorems about fresh runs apply to it; that the page presets no `data-step` is an assumption, since the page markup is not part of this model |

## Left out

- DOM effects are not modelled. These are the question labels, the button text, showing and hiding sections, `forgotForm.reset()` and the error toasts. Form fields are plain string parameters of each submission, so clearing them is the caller's business.
- The store's `getUsers` and `resetPassword` are not part of this model. The user table is a parameter of each submission. The reset is a parameter `ResetCall -> bool`: `true` means the promise resolved, `false` means it threw.
- `async`/`await` and the listener registration (`app.js:2-6`) are not modelled. Each submission is treated as one atomic transition. The handler can in fact be suspended at the `await` of the reset (`app.js:54`), and a submission made during that wait would read the unchanged `newpassword` step and username and ask for a second reset for the same user. Such overlapping submissions are not modelled.
- `JsString.Lower`: lower-cases ASCII `A`–`Z` only. JavaScript's `toLowerCase` also maps non-ASCII letters.
- Missing input elements (the optional chaining yielding `undefined`) are not modelled. Every field is assumed present and a string.
- Names found in a plain JavaScript object only through inheritance (`constructor`, `__proto__`, ...) are not modelled: a user-table lookup is by own key only. For such a name, `users[name]` is truthy but has no `securityQs`, so `app.js:18` or `app.js:34` throws before the step is written. The modelled state then ends as it does for an unknown user. Only the error toast differs, and toasts are not modelled.
- `ForgotPasswordRuns.ResetOnlyAfterVerification`: does not cover a page that presets `data-step` to `security` or `newpassword`. From a preset `newpassword`, the first submission with equal passwords asks for a reset for the remembered username without any earlier check. The page markup is not part of this model, so whether such a preset exists is not known.
- How answers are stored at registration is not part of this model. `UnnormalizedAnswerNeverMatches` states what happens when they are not stored in normal form.
