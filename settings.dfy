/** The settings page: the signed-in user's profile, and the forms that change
    the password, change the email, delete the account and update the profile.
    Each form is checked in the browser before a request is sent. */
module Settings {
  import opened Base
  import Js
  import Account
  import Client

  /** The user object `/api/me` returns, as far as the page uses it; a field the
      object lacks is None. */
  datatype Profile = Profile(id: Option<nat>, username: string, email: Option<string>, bio: Option<string>,
                             profilePicture: Option<string>)

  /** The largest picture the page accepts, in bytes: 2 MiB. */
  const MaxImageBytes: nat := 2 * 1024 * 1024

  /** A chosen picture is kept exactly when it is at most 2 MiB. */
  predicate ImageAccepted(size: nat) {
    size <= MaxImageBytes
  }

  /** `handleChangePassword`'s checks, in order: both fields, then the length of
      the new password. The fields are not trimmed. */
  function PasswordFormCheck(currentPassword: string, newPassword: string): (c: Client.Check)
    ensures c == Client.Proceed <==> currentPassword != [] && newPassword != [] && |newPassword| >= 6
    ensures currentPassword == [] || newPassword == [] ==> c == Client.Reject("Please fill in all fields")
    ensures currentPassword != [] && newPassword != [] && |newPassword| < 6 ==>
      c == Client.Reject("New password must be at least 6 characters")
  {
    if currentPassword == [] || newPassword == [] then Client.Reject("Please fill in all fields")
    else if |newPassword| < 6 then Client.Reject("New password must be at least 6 characters")
    else Client.Proceed
  }

  /** `handleChangeEmail`'s check: both fields filled in. */
  function EmailFormCheck(newEmail: string, password: string): (c: Client.Check)
    ensures c == Client.Proceed <==> newEmail != [] && password != []
    ensures c != Client.Proceed ==> c == Client.Reject("Please fill in all fields")
  {
    if newEmail == [] || password == [] then Client.Reject("Please fill in all fields") else Client.Proceed
  }

  /** `handleDeleteAccount`'s check, once the dialog is confirmed. */
  function DeleteFormCheck(password: string): (c: Client.Check)
    ensures c == Client.Proceed <==> password != []
    ensures c != Client.Proceed ==> c == Client.Reject("Please enter your password")
  {
    if password == [] then Client.Reject("Please enter your password") else Client.Proceed
  }

  /** `handleUpdateProfile`'s checks on the trimmed username and bio, in order:
      a username at all, then one of at least 3 characters, then a bio of at
      most 160. */
  function ProfileFormCheck(username: string, bio: string): (c: Client.Check)
    ensures c == Client.Proceed <==> |Js.Trim(username)| >= 3 && |Js.Trim(bio)| <= 160
    ensures Js.Trim(username) == [] ==> c == Client.Reject("Username is required")
    ensures Js.Trim(username) != [] && |Js.Trim(username)| < 3 ==>
      c == Client.Reject("Username must be at least 3 characters")
    ensures |Js.Trim(username)| >= 3 && |Js.Trim(bio)| > 160 ==> c == Client.Reject("Bio cannot exceed 160 characters")
  {
    var u, b := Js.Trim(username), Js.Trim(bio);
    if u == [] then Client.Reject("Username is required")
    else if |u| < 3 then Client.Reject("Username must be at least 3 characters")
    else if |b| > 160 then Client.Reject("Bio cannot exceed 160 characters")
    else Client.Proceed
  }

  /** The JSON body the password form sends. */
  function PasswordRequest(currentPassword: string, newPassword: string): (b: Account.AccountBody)
    ensures b.currentPassword == Some(currentPassword) && b.newPassword == Some(newPassword)
    ensures b.newEmail.None?
  {
    Account.AccountBody(Some(currentPassword), Some(newPassword), None)
  }

  /** The JSON body the email form sends, `{ email, currentPassword }`, as the
      account handler reads it: the address sits under `email`, a key the handler
      does not read, so it finds no `newEmail`. */
  function EmailRequest(newEmail: string, password: string): (b: Account.AccountBody)
    ensures b.currentPassword == Some(password) && b.newPassword.None? && b.newEmail.None?
  {
    Account.AccountBody(Some(password), None, None)
  }

  /** The body the email form evidently means to send: the address under `newEmail`. */
  function EmailRequestCorrected(newEmail: string, password: string): (b: Account.AccountBody)
    ensures b.currentPassword == Some(password) && b.newPassword.None? && b.newEmail == Some(newEmail)
  {
    Account.AccountBody(Some(password), None, Some(newEmail))
  }

  /** The JSON body the delete form sends. */
  function DeleteRequest(password: string): (b: Account.AccountBody)
    ensures b.currentPassword == Some(password) && b.newPassword.None? && b.newEmail.None?
  {
    Account.AccountBody(Some(password), None, None)
  }

  /** `{ ...this.currentUser, username, bio, profile_picture }`: the other fields
      are kept, those three replaced; spreading `null` keeps nothing. */
  function Updated(user: Option<Profile>, username: string, bio: string, picture: Option<string>): (p: Profile)
    ensures p.username == username && p.bio == Some(bio) && p.profilePicture == picture
    ensures user.Some? ==> p.id == user.value.id && p.email == user.value.email
    ensures user.None? ==> p.id.None? && p.email.None?
  {
    match user
    case None => Profile(None, username, None, Some(bio), picture)
    case Some(u) => u.(username := username, bio := Some(bio), profilePicture := picture)
  }

  /** The page object. `stored` is the `nestToken` entry of local storage,
      `redirected` records a navigation to the login page, `ready` that the
      forms are bound and the account section shown, `chosenImage` the size
      of the file in the picture input, if any, and `previewShown` that the
      picture element shows a chosen file rather than the account's own picture
      or initials. */
  class SettingsManager {
    var currentUser: Option<Profile>
    var token: Option<string>
    var stored: Option<string>
    var redirected: bool
    var ready: bool
    var chosenImage: Option<nat>
    var previewShown: bool

    /** The constructor reads the stored token and runs `init`; `me` is the
        answer of `/api/me`, None when the request fails. Without a token, or
        with an empty one, which `!this.token` also refuses, the page only
        redirects. */
    constructor (saved: Option<string>, me: Option<Profile>)
      ensures token == saved && stored == saved && chosenImage.None? && !previewShown
      ensures !Present(saved) ==> redirected && !ready && currentUser.None?
      ensures Present(saved) && me.None? ==> redirected && ready && currentUser.None?
      ensures Present(saved) && me.Some? ==> !redirected && ready && currentUser == me
    {
      token, stored := saved, saved;
      chosenImage, previewShown := None, false;
      if !Present(saved) {
        currentUser, redirected, ready := None, true, false;
      } else {
        // A failed `loadUser` redirects, but `init` still binds the forms.
        currentUser, redirected, ready := me, me.None?, true;
      }
    }

    /** Choosing a file of `size` bytes in the picture input. The change handler
        is bound by `updateProfileForm`, which binds it only once a user is
        loaded; before that, the file stays in the input, unchecked and not
        previewed. */
    method ChooseImage(size: nat)
      modifies this
      ensures old(currentUser).None? ==> chosenImage == Some(size) && previewShown == old(previewShown)
      ensures old(currentUser).Some? && ImageAccepted(size) ==> chosenImage == Some(size) && previewShown
      ensures old(currentUser).Some? && !ImageAccepted(size) ==>
        chosenImage.None? && previewShown == old(previewShown)
      ensures currentUser == old(currentUser) && token == old(token) && stored == old(stored)
      ensures redirected == old(redirected) && ready == old(ready)
    {
      if currentUser.None? {
        chosenImage := Some(size);
        return;
      }
      if !ImageAccepted(size) {
        chosenImage := None;
        return;
      }
      chosenImage := Some(size);
      previewShown := true;
    }

    /** `handleChangePassword`: the request it sends, if any. Its answer changes
        nothing but the page's toasts and form fields. */
    method ChangePassword(currentPassword: string, newPassword: string)
      returns (request: Option<Account.AccountBody>)
      ensures PasswordFormCheck(currentPassword, newPassword) == Client.Proceed <==> request.Some?
      ensures request.Some? ==> request.value == PasswordRequest(currentPassword, newPassword)
    {
      if PasswordFormCheck(currentPassword, newPassword) != Client.Proceed {
        return None;
      }
      request := Some(PasswordRequest(currentPassword, newPassword));
    }

    /** `handleChangeEmail`; on a successful answer the page's user takes the
        new address, and with no user loaded the assignment throws and nothing
        changes. The request carries the address under `email` (`EmailRequest`),
        so the account handler never sees a `newEmail` and answers 400;
        `Protocol.ChangeEmailAsWritten` states that answer. */
    method ChangeEmail(newEmail: string, password: string, ok: bool)
      returns (request: Option<Account.AccountBody>)
      modifies this
      ensures EmailFormCheck(newEmail, password) == Client.Proceed <==> request.Some?
      ensures request.Some? ==> request.value == EmailRequest(newEmail, password)
      ensures request.Some? && ok && old(currentUser).Some? ==>
        currentUser == Some(old(currentUser).value.(email := Some(newEmail)))
      ensures !(request.Some? && ok) || old(currentUser).None? ==> currentUser == old(currentUser)
      ensures token == old(token) && stored == old(stored) && redirected == old(redirected) && ready == old(ready)
      ensures chosenImage == old(chosenImage) && previewShown == old(previewShown)
    {
      if EmailFormCheck(newEmail, password) != Client.Proceed {
        return None;
      }
      request := Some(EmailRequest(newEmail, password));
      if ok && currentUser.Some? {
        currentUser := Some(currentUser.value.(email := Some(newEmail)));
      }
    }

    /** `handleDeleteAccount`; `confirmed` is the dialog's answer. A successful
        answer removes the token from local storage, keeps the page's own copy,
        and leads back to the login page. */
    method DeleteAccount(confirmed: bool, password: string, ok: bool)
      returns (request: Option<Account.AccountBody>)
      modifies this
      ensures request.Some? <==> confirmed && DeleteFormCheck(password) == Client.Proceed
      ensures request.Some? ==> request.value == DeleteRequest(password)
      ensures request.Some? && ok ==> stored.None? && redirected
      ensures !(request.Some? && ok) ==> stored == old(stored) && redirected == old(redirected)
      ensures token == old(token) && currentUser == old(currentUser) && ready == old(ready)
      ensures chosenImage == old(chosenImage) && previewShown == old(previewShown)
    {
      if !confirmed || DeleteFormCheck(password) != Client.Proceed {
        return None;
      }
      request := Some(DeleteRequest(password));
      if ok {
        stored, redirected := None, true;
      }
    }

    /** A successful profile update: the page's user becomes `p`,
        `updateProfileForm` redraws the picture from it in place of any
        preview, and the picture input is cleared. */
    method Saved(p: Profile)
      modifies this
      ensures currentUser == Some(p) && chosenImage.None? && !previewShown
      ensures token == old(token) && stored == old(stored) && redirected == old(redirected) && ready == old(ready)
    {
      currentUser := Some(p);
      chosenImage, previewShown := None, false;
    }

    /** `handleUpdateProfile`; `answer` holds the `profile_picture` of a
        successful answer, None when the answer is not ok. After success
        `updateProfileForm` redraws the picture from the updated user, replacing
        any preview, and the picture input is cleared. */
    method UpdateProfile(username: string, bio: string, answer: Option<Option<string>>)
      returns (sent: bool)
      modifies this
      ensures sent <==> ProfileFormCheck(username, bio) == Client.Proceed
      ensures sent && answer.Some? ==>
        && currentUser == Some(Updated(old(currentUser), Js.Trim(username), Js.Trim(bio), answer.value))
        && chosenImage.None? && !previewShown
      ensures !(sent && answer.Some?) ==>
        currentUser == old(currentUser) && chosenImage == old(chosenImage) && previewShown == old(previewShown)
      ensures token == old(token) && stored == old(stored) && redirected == old(redirected) && ready == old(ready)
    {
      sent := ProfileFormCheck(username, bio) == Client.Proceed;
      if sent && answer.Some? {
        Saved(Updated(currentUser, Js.Trim(username), Js.Trim(bio), answer.value));
      }
    }
  }
}
