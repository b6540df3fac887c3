/** The add/edit dialog: its form state, the validation rules, the per-field error
    clearing, the reset when the dialog opens, closes or changes target, and the mutation
    a submit sends. */
module BookModal {
  import opened Common
  import opened BookTypes
  import JsString
  import Catalog

  /** The options of the category selector. */
  const CategoryOptions: seq<string> := ["Industrial", "Municipal", "Organic", "E-Waste", "Hazardous"]

  const MaxNameLength: int := 100
  const MaxDescriptionLength: int := 500

  const NameRequired: string := "Book name is required"
  const NameTooLong: string := "Book name must be 100 characters or less"
  const CategoryRequired: string := "Category is required"
  const DescriptionRequired: string := "Description is required"
  const DescriptionTooLong: string := "Description must be 500 characters or less"

  /** The error shown under each field, if any. */
  datatype FormErrors = FormErrors(name: Option<string>, category: Option<string>, description: Option<string>)

  const NoErrors: FormErrors := FormErrors(None, None, None)

  /** The book the dialog edits; without one it creates. Its category may be missing. */
  datatype EditTarget = EditTarget(id: int, name: string, description: string, category: Option<string>)

  /** The request a submit sends to the server. */
  datatype Mutation = CreateBook(createInput: CreateBookInput) | UpdateBook(updateInput: UpdateBookInput)

  function NameError(name: string): Option<string> {
    if JsString.Trim(name) == "" then Some(NameRequired)
    else if |name| > MaxNameLength then Some(NameTooLong)
    else None
  }

  function CategoryError(category: string): Option<string> {
    if category == "" then Some(CategoryRequired) else None
  }

  function DescriptionError(description: string): Option<string> {
    if JsString.Trim(description) == "" then Some(DescriptionRequired)
    else if |description| > MaxDescriptionLength then Some(DescriptionTooLong)
    else None
  }

  /** The errors `validate` records. */
  function Validation(name: string, category: string, description: string): FormErrors {
    FormErrors(NameError(name), CategoryError(category), DescriptionError(description))
  }

  /** `isFormValid`, which enables the submit button. */
  predicate IsFormValid(name: string, category: string, description: string) {
    JsString.Trim(name) != "" && JsString.Trim(description) != "" && category != ""
    && |name| <= MaxNameLength && |description| <= MaxDescriptionLength
  }

  /** Each field's error in terms of the field alone: "required" for a field that is
      blank (only white space), "too long" for a non-blank one over the limit counted
      untrimmed, and the category only has to be non-empty, whether or not it is one of
      the options. */
  lemma ValidationRules(name: string, category: string, description: string)
    ensures var e := Validation(name, category, description);
      (e.name == Some(NameRequired) <==> JsString.IsBlank(name))
      && (e.name == Some(NameTooLong) <==> !JsString.IsBlank(name) && |name| > MaxNameLength)
      && (e.name.None? <==> !JsString.IsBlank(name) && |name| <= MaxNameLength)
      && (e.category.Some? <==> category == "")
      && (e.description == Some(DescriptionRequired) <==> JsString.IsBlank(description))
      && (e.description == Some(DescriptionTooLong) <==>
            !JsString.IsBlank(description) && |description| > MaxDescriptionLength)
      && (e.description.None? <==> !JsString.IsBlank(description) && |description| <= MaxDescriptionLength)
  {
    JsString.TrimEmptyIffBlank(name);
    JsString.TrimEmptyIffBlank(description);
  }

  /** The limit counts the untrimmed text: trailing spaces that push a name past 100
      characters make it "too long", however short its trimmed text is. */
  lemma PaddingCountsTowardsLimit(text: string, padding: nat)
    requires !JsString.IsBlank(text) && |text| + padding > MaxNameLength
    ensures NameError(text + seq(padding, _ => ' ')) == Some(NameTooLong)
  {
    var padded := text + seq(padding, _ => ' ');
    var i :| 0 <= i < |text| && !JsString.IsWhiteSpace(text[i]);
    assert padded[i] == text[i];
    JsString.TrimEmptyIffBlank(padded);
  }

  /** The submit button is enabled exactly when validation records no error. */
  lemma FormValidIffNoErrors(name: string, category: string, description: string)
    ensures IsFormValid(name, category, description) <==> Validation(name, category, description) == NoErrors
  {
  }

  /** The update a valid edit sends replaces all three fields of the stored record and
      keeps its id. */
  lemma EditPayloadReplacesFields(stored: Book, name: string, category: string, description: string)
    ensures Catalog.Merge(stored, UpdateBookInput(stored.id, Some(name), Some(description), Some(category)))
      == Book(stored.id, name, description, category)
  {
  }

  /** The dialog's state. */
  class BookForm {
    var name: string
    var description: string
    var category: string
    var errors: FormErrors
    var isOpen: bool
    var initialBook: Option<EditTarget>   // the `initialBook` prop: edit mode when present

    /** The state of a closed dialog with the target's values (or empty fields). */
    constructor(initialBook: Option<EditTarget>)
      ensures this.initialBook == initialBook && !isOpen && errors == NoErrors
      ensures initialBook.Some? ==>
        name == initialBook.value.name && description == initialBook.value.description
        && category == initialBook.value.category.GetOr("")
      ensures initialBook.None? ==> name == "" && description == "" && category == ""
    {
      this.initialBook := initialBook;
      isOpen := false;
      errors := NoErrors;
      match initialBook
      case Some(t) =>
        name := t.name;
        description := t.description;
        category := t.category.GetOr("");
      case None =>
        name := "";
        description := "";
        category := "";
    }

    /** The effect run when the dialog opens or closes or the target changes: the fields
        take the target's values (or become empty) and every error is cleared. */
    method Reset()
      modifies this`name, this`description, this`category, this`errors
      ensures errors == NoErrors
      ensures initialBook.Some? ==>
        name == initialBook.value.name && description == initialBook.value.description
        && category == initialBook.value.category.GetOr("")
      ensures initialBook.None? ==> name == "" && description == "" && category == ""
    {
      errors := NoErrors;
      match initialBook
      case Some(t) =>
        name := t.name;
        description := t.description;
        category := t.category.GetOr("");
      case None =>
        name := "";
        description := "";
        category := "";
    }

    method Open()
      modifies this`isOpen, this`name, this`description, this`category, this`errors
      ensures isOpen && errors == NoErrors
      ensures initialBook.None? ==> name == "" && description == "" && category == ""
      ensures initialBook.Some? ==>
        name == initialBook.value.name && description == initialBook.value.description
        && category == initialBook.value.category.GetOr("")
    {
      isOpen := true;
      Reset();
    }

    method Close()
      modifies this`isOpen, this`name, this`description, this`category, this`errors
      ensures !isOpen && errors == NoErrors
      ensures initialBook.None? ==> name == "" && description == "" && category == ""
      ensures initialBook.Some? ==>
        name == initialBook.value.name && description == initialBook.value.description
        && category == initialBook.value.category.GetOr("")
    {
      isOpen := false;
      Reset();
    }

    /** The parent passes a different book. */
    method ChangeTarget(target: Option<EditTarget>)
      modifies this`initialBook, this`name, this`description, this`category, this`errors
      ensures initialBook == target && errors == NoErrors
      ensures target.None? ==> name == "" && description == "" && category == ""
      ensures target.Some? ==>
        name == target.value.name && description == target.value.description
        && category == target.value.category.GetOr("")
    {
      initialBook := target;
      Reset();
    }

    /** Typing in the name field clears the name error and no other. */
    method ChangeName(value: string)
      modifies this`name, this`errors
      ensures name == value
      ensures errors == old(errors).(name := None)
    {
      name := value;
      if errors.name.Some? {
        errors := errors.(name := None);
      }
    }

    /** Choosing a category clears the category error and no other. */
    method ChangeCategory(value: string)
      modifies this`category, this`errors
      ensures category == value
      ensures errors == old(errors).(category := None)
    {
      category := value;
      if errors.category.Some? {
        errors := errors.(category := None);
      }
    }

    /** Typing in the description clears the description error and no other. */
    method ChangeDescription(value: string)
      modifies this`description, this`errors
      ensures description == value
      ensures errors == old(errors).(description := None)
    {
      description := value;
      if errors.description.Some? {
        errors := errors.(description := None);
      }
    }

    /** `validate`: records the errors field by field and reports whether there were
        none, which is exactly when the submit button is enabled. */
    method Validate() returns (ok: bool)
      modifies this`errors
      ensures errors == Validation(name, category, description)
      ensures ok <==> errors == NoErrors
      ensures ok <==> IsFormValid(name, category, description)
    {
      var newErrors := NoErrors;
      if JsString.Trim(name) == "" {
        newErrors := newErrors.(name := Some(NameRequired));
      } else if |name| > MaxNameLength {
        newErrors := newErrors.(name := Some(NameTooLong));
      }
      if category == "" {
        newErrors := newErrors.(category := Some(CategoryRequired));
      }
      if JsString.Trim(description) == "" {
        newErrors := newErrors.(description := Some(DescriptionRequired));
      } else if |description| > MaxDescriptionLength {
        newErrors := newErrors.(description := Some(DescriptionTooLong));
      }
      errors := newErrors;
      ok := errors == NoErrors;
      FormValidIffNoErrors(name, category, description);
    }

    /** `handleSubmit`, with `succeeded` telling whether the server accepted the
        mutation. An invalid form sends nothing; an edit sends the target's id with all
        three fields, a create sends the three fields. Success closes the dialog, which
        resets the fields (to the target's values after an edit, to empty ones after a
        create); failure keeps them. */
    method HandleSubmit(succeeded: bool) returns (sent: Option<Mutation>)
      modifies this`name, this`description, this`category, this`errors, this`isOpen
      ensures !IsFormValid(old(name), old(category), old(description)) ==>
        sent == None && errors == Validation(name, category, description)
        && name == old(name) && description == old(description) && category == old(category)
        && isOpen == old(isOpen)
      ensures IsFormValid(old(name), old(category), old(description)) && initialBook.Some? ==>
        sent == Some(UpdateBook(UpdateBookInput(initialBook.value.id,
          Some(old(name)), Some(old(description)), Some(old(category)))))
      ensures IsFormValid(old(name), old(category), old(description)) && initialBook.None? ==>
        sent == Some(CreateBook(CreateBookInput(old(name), old(description), old(category))))
      ensures IsFormValid(old(name), old(category), old(description)) && succeeded ==>
        !isOpen && errors == NoErrors
        && (initialBook.None? ==> name == "" && description == "" && category == "")
        && (initialBook.Some? ==>
          name == initialBook.value.name && description == initialBook.value.description
          && category == initialBook.value.category.GetOr(""))
      ensures IsFormValid(old(name), old(category), old(description)) && !succeeded ==>
        isOpen == old(isOpen) && errors == NoErrors
        && name == old(name) && description == old(description) && category == old(category)
    {
      var ok := Validate();
      if !ok {
        return None;
      }
      sent := match initialBook
        case Some(t) => Some(UpdateBook(UpdateBookInput(t.id, Some(name), Some(description), Some(category))))
        case None => Some(CreateBook(CreateBookInput(name, description, category)));
      if succeeded {
        Close();
        if initialBook.None? {
          name := "";
          description := "";
          category := "";
        }
      }
    }
  }
}
