/**
 * The constructor shared by the library's exceptions and errors
 * (src/throwable/firehub.Throwable.php): an empty message becomes the
 * default message of the class being built, resolved late as PHP's
 * `static::` does, a missing code becomes DEFAULT_CODE, and the
 * previous throwable is passed through.
 */
module Throwable {

  import opened Php
  import opened ValueObject

  /** A class using the trait: one of the two bases, or a subclass that
      may redeclare `DEFAULT_MESSAGE` (`None` when it inherits it). */
  datatype Class = ExceptionBase | ErrorBase | Subclass(parent: Class, ownDefault: Option<string>)
  {
    /** `static::DEFAULT_MESSAGE`: late static binding finds the nearest
        declaration on the way up the class chain. */
    function DefaultMessage(): (m: string)
      ensures DefaultsNonEmpty() ==> m != ""
      decreases this
    {
      match this
      case ExceptionBase => "General exception."
      case ErrorBase => "General error."
      case Subclass(p, own) => if own.Some? then own.value else p.DefaultMessage()
    }

    /** Every redeclared default on the chain is non-empty; PHP itself would
        accept an empty constant. */
    predicate DefaultsNonEmpty()
      decreases this
    {
      match this
      case Subclass(p, own) => (own.Some? ==> own.value != "") && p.DefaultsNonEmpty()
      case _ => true
    }
  }

  /** The library's own subclasses and the defaults they declare. */
  const EmptySeparatorError: Class := Subclass(ErrorBase, Some("Separator is empty."))
  const CreateLinkError: Class := Subclass(ErrorBase, Some("Create link error."))
  const UnregisterAutoloaderError: Class := Subclass(ErrorBase, Some("Unregister autoload error."))
  const ArrayToStringConversionError: Class := Subclass(ErrorBase, Some("Array to string conversion error."))
  const FailedToCreateAliasError: Class := Subclass(ErrorBase, Some("Failed to create class alias."))
  const InvalidFolderException: Class := Subclass(ExceptionBase, Some("Autoload folder is invalid."))
  const InvalidAutoloadHandleException: Class := Subclass(ExceptionBase, Some("Autoload handle is invalid."))

  const LibraryClasses: seq<Class> :=
    [ExceptionBase, ErrorBase, EmptySeparatorError, CreateLinkError, UnregisterAutoloaderError,
     ArrayToStringConversionError, FailedToCreateAliasError, InvalidFolderException,
     InvalidAutoloadHandleException]

  const DEFAULT_CODE: int := 0

  /** What the trait hands to the native constructor; `previous` is the
      identity of the chained throwable, if any. */
  datatype Fields = Fields(message: string, code: int, previous: Option<nat>)

  /** The trait's constructor. */
  function Construct(cls: Class, message: string, code: Option<Code>, previous: Option<nat>): (f: Fields)
    ensures f.message == if message != "" then message else cls.DefaultMessage()
    ensures code.None? ==> f.code == DEFAULT_CODE
    ensures code.Some? ==> Int(f.code) == code.value.Value()
    ensures f.previous == previous
  {
    Fields(if message != "" then message else cls.DefaultMessage(),
           match code case Some(c) => c.code case None => DEFAULT_CODE,
           previous)
  }

  /** The stored message is never empty when no class on the chain
      declares an empty default. */
  lemma MessageNeverEmpty(cls: Class, message: string, code: Option<Code>, previous: Option<nat>)
    requires cls.DefaultsNonEmpty()
    ensures Construct(cls, message, code, previous).message != ""
  {
  }

  /** A subclass's own default wins over every inherited one. */
  lemma OwnDefaultWins(parent: Class, d: string, code: Option<Code>, previous: Option<nat>)
    ensures Construct(Subclass(parent, Some(d)), "", code, previous).message == d
  {
  }

  /** A subclass that declares no default behaves exactly as its parent. */
  lemma InheritedDefault(parent: Class, message: string, code: Option<Code>, previous: Option<nat>)
    ensures Construct(Subclass(parent, None), message, code, previous) == Construct(parent, message, code, previous)
  {
  }

  /** Every class in the library gets a non-empty message, whatever the
      caller passes. */
  lemma LibraryMessagesNeverEmpty(i: nat, message: string, code: Option<Code>, previous: Option<nat>)
    requires i < |LibraryClasses|
    ensures Construct(LibraryClasses[i], message, code, previous).message != ""
  {
    MessageNeverEmpty(LibraryClasses[i], message, code, previous);
  }

  /** With no code or a code built by `new Code`, the stored code is
      non-negative. */
  lemma StoredCodeNonNegative(cls: Class, message: string, n: int, previous: Option<nat>)
    requires NewCode(n).Success?
    ensures Construct(cls, message, Some(NewCode(n).value), previous).code >= 0
    ensures Construct(cls, message, None, previous).code == 0
  {
  }
}
