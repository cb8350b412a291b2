/** Translation of raw database errors into the texts shown to users (`getUserFriendlyErrorMessage`). */
module ErrorMessages {
  import opened Wrappers
  import opened Text

  /** A caught value, as far as the translation tells values apart: a string, an object
      with or without a `message`, `null`, or anything else (undefined, numbers, ...). */
  datatype Thrown = Str(text: string) | Object(message: Option<string>) | Null | NonObject

  const ForeignKeyCode := "SQLITE_CONSTRAINT_FOREIGNKEY"
  const PrimaryKeyCode := "SQLITE_CONSTRAINT_PRIMARYKEY"
  const UniqueCode := "SQLITE_CONSTRAINT_UNIQUE"

  // The texts are written as short pieces so that facts about their characters stay cheap to prove.
  const RetryHint := "Please refresh and try again."
  const ForeignKeyText := "The selected record " + "does not exist anymore. " + RetryHint
  const ConflictText := "This action conflicts with existing data. " + RetryHint
  const GenericText := "Something went wrong. " + "Please try again later."

  /** The text the translation inspects: the string itself, an object's `message`
      (or "" when it has none), and "" for every other value. */
  function RawMessage(e: Thrown): string {
    match e
    case Str(s) => s
    case Object(m) => if m.Some? then m.value else ""
    case _ => ""
  }

  predicate IsConflict(raw: string) {
    Contains(raw, PrimaryKeyCode) || Contains(raw, UniqueCode)
  }

  /** The message shown to the user: never empty, and either one of the three fixed
      texts or the raw message itself. */
  function FriendlyMessage(e: Thrown): (r: string)
    ensures r != ""
    ensures r == ForeignKeyText || r == ConflictText || r == GenericText || r == RawMessage(e)
  {
    var raw := RawMessage(e);
    if Contains(raw, ForeignKeyCode) then ForeignKeyText
    else if IsConflict(raw) then ConflictText
    else if raw == "" then GenericText
    else raw
  }

  /** The foreign-key check comes first: a message naming both a foreign-key and a
      uniqueness violation is reported as a missing record. */
  lemma ForeignKeyTakesPriority(e: Thrown)
    requires Contains(RawMessage(e), ForeignKeyCode)
    ensures FriendlyMessage(e) == ForeignKeyText
  {
  }

  /** Primary-key and uniqueness violations without a foreign-key code are reported as conflicts. */
  lemma ConflictWithoutForeignKey(e: Thrown)
    requires !Contains(RawMessage(e), ForeignKeyCode)
    requires Contains(RawMessage(e), PrimaryKeyCode) || Contains(RawMessage(e), UniqueCode)
    ensures FriendlyMessage(e) == ConflictText
  {
  }

  /** Values that carry no text (null, undefined, numbers, objects without a message,
      empty strings) get the generic text. */
  lemma MissingMessageIsGeneric(e: Thrown)
    requires RawMessage(e) == ""
    ensures FriendlyMessage(e) == GenericText
  {
    assert !Contains("", ForeignKeyCode) && !IsConflict("");
  }

  /** Any other non-empty message is shown unchanged. */
  lemma OtherMessagesPassThrough(e: Thrown)
    requires RawMessage(e) != ""
    requires !Contains(RawMessage(e), ForeignKeyCode) && !IsConflict(RawMessage(e))
    ensures FriendlyMessage(e) == RawMessage(e)
  {
  }

  /** None of the fixed texts contains an underscore, which every SQLite code does. */
  lemma UnderscoreOnlyInCodes()
    ensures '_' !in ForeignKeyText && '_' !in ConflictText && '_' !in GenericText
    ensures '_' in ForeignKeyCode && '_' in PrimaryKeyCode && '_' in UniqueCode
  {
    NoUnderscoreInForeignKeyText();
    NoUnderscoreInGenericText();
    assert '_' !in RetryHint;
    assert '_' !in ConflictText;
    assert ForeignKeyCode[6] == '_' && PrimaryKeyCode[6] == '_' && UniqueCode[6] == '_';
  }

  lemma NoUnderscoreInForeignKeyText()
    ensures '_' !in ForeignKeyText
  {
    assert '_' !in "The selected record ";
    assert '_' !in "does not exist anymore. ";
    assert '_' !in RetryHint;
  }

  lemma NoUnderscoreInGenericText()
    ensures '_' !in GenericText
  {
  }

  /** Hence none of the fixed texts mentions an SQLite code. */
  lemma FixedTextsCarryNoCode(t: string)
    requires t == ForeignKeyText || t == ConflictText || t == GenericText
    ensures !Contains(t, ForeignKeyCode) && !IsConflict(t)
  {
    UnderscoreOnlyInCodes();
    MissingCharRefutes(t, ForeignKeyCode, '_');
    MissingCharRefutes(t, PrimaryKeyCode, '_');
    MissingCharRefutes(t, UniqueCode, '_');
  }

  /** Translating an already translated message changes nothing. */
  lemma {:induction false} FriendlyMessageIsFixpoint(e: Thrown)
    ensures FriendlyMessage(Str(FriendlyMessage(e))) == FriendlyMessage(e)
  {
    var r := FriendlyMessage(e);
    if r == ForeignKeyText || r == ConflictText || r == GenericText {
      FixedTextsCarryNoCode(r);
    }
  }
}
