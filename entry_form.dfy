/**
 * The "add password" dialog of UI/add_password_ui.py. Its Save button reads
 * the four text fields and either emits the new credential as a dict or
 * shows an error toast and emits nothing.
 */
module EntryForm {
  import opened Wrappers

  /** The texts of the dialog's four line edits. */
  datatype Form = Form(address: string, user: string, password: string, confirm: string)

  /** The three keys of the emitted record. */
  const SiteKey: string := "site"
  const UserKey: string := "user_name"
  const PwdKey: string := "pwd"

  /**
   * `save_password`: the record emitted through `data_submitted`, or None
   * when the error message is shown instead.
   */
  function SavePassword(f: Form): (r: Option<map<string, string>>)
    ensures r.Some? <==> f.address != "" && f.user != "" && f.password == f.confirm
    ensures r.Some? ==> r.value.Keys == {SiteKey, UserKey, PwdKey}
    ensures r.Some? ==> r.value[SiteKey] == f.address && r.value[UserKey] == f.user
                        && r.value[PwdKey] == f.password
  {
    if f.address != "" && f.user != "" && f.password == f.confirm then
      Some(map[SiteKey := f.address, UserKey := f.user, PwdKey := f.password])
    else
      None
  }

  /** The emitted record never carries an `id`, so the vault allocates one for it. */
  lemma NoIdEmitted(f: Form)
    requires SavePassword(f).Some?
    ensures "id" !in SavePassword(f).value
  {
    assert "id"[0] != SiteKey[0] && "id"[0] != UserKey[0] && "id"[0] != PwdKey[0];
  }

  /** An empty password confirmed by an empty confirmation is accepted. */
  lemma EmptyPasswordAccepted(address: string, user: string)
    requires address != "" && user != ""
    ensures SavePassword(Form(address, user, "", "")).Some?
  {
  }

  /** A form that fails any of the three checks emits nothing. */
  lemma RejectedForms(f: Form)
    ensures f.address == "" ==> SavePassword(f).None?
    ensures f.user == "" ==> SavePassword(f).None?
    ensures f.password != f.confirm ==> SavePassword(f).None?
  {
  }
}
