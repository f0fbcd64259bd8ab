/** src/components/CustomConfigModal.tsx: the form that creates a custom
    configuration, and what submitting it does (lines 19-47). The page opens
    it without a configuration to edit and saves through `addCustomConfig`
    (src/app/page.tsx:92-95 and :118-121). */
module ConfigModal {
  import opened Wrappers
  import opened Text
  import opened Types
  import opened CustomConfigs

  /** The form's five fields, as the inputs hold them. */
  datatype FormData = FormData(
    displayName: string,
    source: Source,
    key: string,
    icon: string,
    description: string)

  /** `x || fallback` for an optional string: an absent or empty value falls
      back. */
  function OrElse(x: Option<string>, fallback: string): (r: string)
    ensures r == fallback <==> x.None? || x.value == "" || x.value == fallback
    ensures r != fallback ==> x == Some(r)
  {
    if x.Some? && x.value != "" then x.value else fallback
  }

  const DefaultIcon: string := "🔧"

  /** The blank form: the state on opening without a configuration to edit
      and after every save (lines 39-45). */
  const EmptyForm: FormData := FormData("", LocalStorage, "", DefaultIcon, "")

  /** The form's first state (lines 19-25): the fields of the configuration
      being edited, each falling back to the blank form's value when it is
      missing or empty. */
  function InitialForm(editing: Option<Config>): (r: FormData)
    ensures editing.None? ==> r == EmptyForm
    ensures editing.Some? ==> r.source == editing.value.source
    ensures editing.Some? ==> r.displayName == editing.value.displayName
    ensures editing.Some? ==> (r.icon == DefaultIcon <==>
      editing.value.icon.None? || editing.value.icon.value in {"", DefaultIcon})
    ensures editing.Some? && editing.value.icon.Some? && editing.value.icon.value != "" ==>
      r.icon == editing.value.icon.value
    ensures editing.Some? ==> r.key == if editing.value.key.Some? then editing.value.key.value else ""
    ensures editing.Some? ==>
      r.description == if editing.value.description.Some? then editing.value.description.value else ""
  {
    match editing
    case None => EmptyForm
    case Some(c) =>
      FormData(c.displayName, c.source, OrElse(c.key, ""), OrElse(c.icon, DefaultIcon), OrElse(c.description, ""))
  }

  /** What `handleSubmit` hands to `onSave` (lines 29-37): nothing for a
      name of whitespace only; otherwise the trimmed name and description,
      the trimmed key unless every store is captured, and the icon as typed. */
  function Submission(form: FormData): (r: Option<ConfigFields>)
    ensures r.None? <==> forall i :: 0 <= i < |form.displayName| ==> IsWhitespace(form.displayName[i])
    ensures r.Some? ==> r.value.displayName != "" && Trimmed(r.value.displayName)
    ensures r.Some? ==> r.value.source == form.source && r.value.value.None?
    ensures r.Some? && r.value.key.Some? ==> Trimmed(r.value.key.value)
    ensures r.Some? ==> r.value.icon == Some(form.icon)
    ensures r.Some? ==> r.value.description.Some? && Trimmed(r.value.description.value)
    ensures r.Some? ==> r.value.displayName == Trim(form.displayName)
    ensures r.Some? ==> r.value.key == if form.source != All then Some(Trim(form.key)) else None
    ensures r.Some? ==> r.value.description == Some(Trim(form.description))
  {
    TrimResult(form.displayName);
    TrimResult(form.key);
    TrimResult(form.description);
    if Trim(form.displayName) == "" then None
    else
      Some(ConfigFields(
        Trim(form.displayName),
        form.source,
        if form.source != All then Some(Trim(form.key)) else None,
        None,
        Some(form.icon),
        Some(Trim(form.description))))
  }

  /** Saving again right after a save does nothing: the reset form has no
      name. */
  lemma ResetFormRefused()
    ensures Submission(EmptyForm).None?
  {
  }

  /** Opening the form on a configuration it saved and submitting it
      unchanged saves the same fields again, as long as an icon was typed. */
  lemma {:induction false} EditRoundTrip(form: FormData, now: nat, createdAt: string)
    requires Submission(form).Some? && form.icon != ""
    ensures Submission(InitialForm(Some(NewCustomConfig(Submission(form).value, now, createdAt)))) == Submission(form)
  {
    var fields := Submission(form).value;
    var again := InitialForm(Some(NewCustomConfig(fields, now, createdAt)));
    TrimmedFixpoint(fields.displayName);
    TrimmedFixpoint(fields.description.value);
    if fields.key.Some? {
      TrimmedFixpoint(fields.key.value);
      assert Trim(again.key) == fields.key.value;
    }
    assert again.icon == form.icon;
  }

  /** A configuration saved with an empty icon reopens with the default
      icon (the `||` of line 23), so saving it again stores the default icon
      instead of the empty one. */
  lemma {:induction false} EmptyIconFallback(form: FormData, now: nat, createdAt: string)
    requires Submission(form).Some? && form.icon == ""
    ensures Submission(InitialForm(Some(NewCustomConfig(Submission(form).value, now, createdAt)))) ==
      Submission(form.(icon := DefaultIcon))
    ensures Submission(InitialForm(Some(NewCustomConfig(Submission(form).value, now, createdAt)))) != Submission(form)
  {
    var fields := Submission(form).value;
    var again := InitialForm(Some(NewCustomConfig(fields, now, createdAt)));
    TrimmedFixpoint(fields.displayName);
    TrimmedFixpoint(fields.description.value);
    if fields.key.Some? {
      TrimmedFixpoint(fields.key.value);
      assert Trim(again.key) == fields.key.value;
    }
    assert again.icon == DefaultIcon;
    assert Submission(again).value.icon != Submission(form).value.icon;
  }

  /** The modal's state: the form contents and whether it is shown. */
  class CustomConfigModal {
    var form: FormData
    var isOpen: bool

    /** A modal opened on `editing`, or on a blank form. */
    constructor(editing: Option<Config>)
      ensures form == InitialForm(editing) && isOpen
    {
      form := InitialForm(editing);
      isOpen := true;
    }

    /** An input's `onChange`: the form takes the new contents. */
    method Edit(next: FormData)
      modifies this
      ensures form == next && isOpen == old(isOpen)
    {
      form := next;
    }

    /** `handleSubmit` with `onSave = handleAddCustomConfig`: a form with a
        name is added to the custom configurations, then the form is reset and
        the modal closed; a form without one changes nothing. */
    method HandleSubmit(store: CustomConfigStore, now: nat, createdAt: string) returns (saved: Option<Config>)
      requires store.Valid()
      modifies this, store.cell, store.cell.store
      ensures saved.None? <==> Submission(old(form)).None?
      ensures saved.None? ==> form == old(form) && isOpen == old(isOpen)
      ensures saved.None? ==> unchanged(store.cell, store.cell.store)
      ensures saved.Some? ==> saved.value == NewCustomConfig(Submission(old(form)).value, now, createdAt)
      ensures saved.Some? ==> store.cell.storedValue == old(store.cell.storedValue) + [saved.value]
      ensures saved.Some? ==> store.cell.isClient == old(store.cell.isClient) && store.cell.Saved(store.cell.storedValue)
      ensures saved.Some? ==> form == EmptyForm && !isOpen
    {
      var fields := Submission(form);
      if fields.None? {
        return None;
      }
      var added := SaveAndReset(store, fields.value, now, createdAt);
      saved := Some(added);
    }

    /** `onSave(fields)`, then the form reset and `onClose()`. */
    method SaveAndReset(store: CustomConfigStore, fields: ConfigFields, now: nat, createdAt: string)
      returns (added: Config)
      requires store.Valid()
      modifies this, store.cell, store.cell.store
      ensures added == NewCustomConfig(fields, now, createdAt)
      ensures store.cell.storedValue == old(store.cell.storedValue) + [added]
      ensures store.cell.isClient == old(store.cell.isClient) && store.cell.Saved(store.cell.storedValue)
      ensures form == EmptyForm && !isOpen
    {
      added := store.AddCustomConfig(fields, now, createdAt);
      form := EmptyForm;
      isOpen := false;
    }
  }
}
