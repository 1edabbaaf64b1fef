/** The command handlers and the `input_error` decorator. Each handler maps
    the command's arguments and the book to an `Outcome`: the book afterwards
    and either the reply or the exception that escaped. Python mutates the book
    in place, so changes made before an exception is raised stay in the book,
    and the model keeps them too. */
module Handlers {
  import opened Results
  import opened Calendar
  import opened DateText
  import opened Fields
  import opened Records
  import opened AddressBooks

  /** The exceptions a handler body can raise. */
  datatype Exception =
    | ValueError(cause: ValueCause)
    | KeyError
    | IndexError
    | CheckPhoneNumber(error: PhoneError)

  /** Where a ValueError comes from: unpacking too few arguments, or `Birthday`. */
  datatype ValueCause = NotEnoughArguments | BadBirthday

  /** A handler's return value: a string, or Python's None. */
  datatype Reply = Text(text: string) | NoReply

  datatype Outcome = Outcome(book: AddressBook, reply: Result<Reply, Exception>)

  const IncorrectValue: string := "Incorrect value."
  const MissingArgument: string := "Enter the argument for the command"

  /** The message `input_error` returns in place of an exception it catches;
      None for one it lets through. */
  function CaughtMessage(e: Exception): (m: Option<string>)
    ensures m.None? <==> e.CheckPhoneNumber?
  {
    match e
    case ValueError(_) => Some(IncorrectValue)
    case KeyError => Some(MissingArgument)
    case IndexError => Some(MissingArgument)
    case CheckPhoneNumber(_) => None
  }

  /** `input_error(func)`: a ValueError, KeyError or IndexError becomes its
      message; `CheckPhoneNumber` derives from Exception only and escapes. The
      book keeps whatever the handler did before raising. */
  function InputError(o: Outcome): (o': Outcome)
    ensures o'.book == o.book
    ensures o.reply.Success? ==> o' == o
    ensures o'.reply.Failure? <==> o.reply.Failure? && o.reply.error.CheckPhoneNumber?
    ensures o'.reply.Failure? ==> o' == o
    ensures o.reply.Failure? && o.reply.error.ValueError? ==> o'.reply == Success(Text(IncorrectValue))
    ensures o.reply.Failure? && (o.reply.error.KeyError? || o.reply.error.IndexError?) ==>
      o'.reply == Success(Text(MissingArgument))
  {
    match o.reply
    case Success(_) => o
    case Failure(e) =>
      match CaughtMessage(e)
      case Some(m) => Outcome(o.book, Success(Text(m)))
      case None => o
  }

  /** The record under `name`, created empty and added to the book first when
      there is none. */
  function FindOrCreate(book: AddressBook, name: string): (res: (AddressBook, Record))
    ensures name in res.0.data && res.0.data[name] == res.1
    ensures name in book.data ==> res == (book, book.data[name])
    ensures name !in book.data ==> res.1 == NewRecord(name) && res.0 == AddRecord(book, NewRecord(name))
  {
    match Find(book, name)
    case Some(r) => (book, r)
    case None => (AddRecord(book, NewRecord(name)), NewRecord(name))
  }

  /** The phones stored under `name`, none for an absent contact. */
  function PriorPhones(book: AddressBook, name: string): seq<Phone> {
    if name in book.data then book.data[name].phones else []
  }

  /** The birthday stored under `name`, none for an absent contact. */
  function PriorBirthday(book: AddressBook, name: string): Option<Date> {
    if name in book.data then book.data[name].birthday else None
  }

  /** The phone argument of `add`: an empty one is skipped, any other is validated. */
  predicate PhoneAccepted(phone: string) {
    |phone| == 0 || NewPhone(phone).Success?
  }

  // ---------------------------------------------------------------------------
  // add

  function AddContactBody(args: seq<string>, book: AddressBook): Outcome {
    if |args| < 2 then Outcome(book, Failure(ValueError(NotEnoughArguments)))
    else
      var name, phone := args[0], args[1];
      var message := if name in book.data then "Contact updated." else "Contact added.";
      var (book1, record) := FindOrCreate(book, name);
      if |phone| == 0 then Outcome(book1, Success(Text(message)))
      else
        match AddPhone(record, phone)
        case Failure(e) => Outcome(book1, Failure(CheckPhoneNumber(e)))
        case Success(r) => Outcome(Store(book1, name, r), Success(Text(message)))
  }

  /** `add_contact(args, book)`: creates the contact if needed, then appends the
      phone. The contact is added before the phone is validated, so an invalid
      phone still leaves a new contact behind while `CheckPhoneNumber` escapes. */
  function AddContact(args: seq<string>, book: AddressBook): (o: Outcome)
    ensures |args| < 2 ==> o == Outcome(book, Success(Text(IncorrectValue)))
    ensures |args| >= 2 ==> args[0] in o.book.data
    ensures |args| >= 2 ==> forall k :: k != args[0] ==> Find(o.book, k) == Find(book, k)
    ensures |args| >= 2 ==>
      (o.reply == Success(Text("Contact added.")) <==> args[0] !in book.data && PhoneAccepted(args[1]))
    ensures |args| >= 2 ==>
      (o.reply == Success(Text("Contact updated.")) <==> args[0] in book.data && PhoneAccepted(args[1]))
    ensures |args| >= 2 && !PhoneAccepted(args[1]) ==> o.reply == Failure(CheckPhoneNumber(NewPhone(args[1]).error))
    ensures |args| >= 2 ==> (o.book.data[args[0]].phones ==
      PriorPhones(book, args[0]) + (if |args[1]| > 0 && NewPhone(args[1]).Success? then [Phone(args[1])] else []))
    ensures |args| >= 2 ==> o.book.data[args[0]].birthday == PriorBirthday(book, args[0])
    ensures |args| >= 2 ==> o.book.order == (if args[0] in book.data then book.order else book.order + [args[0]])
    ensures Valid(book) ==> Valid(o.book)
  {
    InputError(AddContactBody(args, book))
  }

  // ---------------------------------------------------------------------------
  // change

  function ChangeContactBody(args: seq<string>, book: AddressBook): Outcome {
    if |args| < 2 then Outcome(book, Failure(ValueError(NotEnoughArguments)))
    else
      var name, phone := args[0], args[1];
      match Find(book, name)
      case None => Outcome(book, Success(Text("Contact not found.")))
      case Some(r) =>
        var cleared := RemoveAllPhones(r);
        match AddPhone(cleared, phone)
        case Failure(e) => Outcome(Store(book, name, cleared), Failure(CheckPhoneNumber(e)))
        case Success(r') => Outcome(Store(book, name, r'), Success(Text("Contact changed.")))
  }

  /** `change_contact(args, book)`: an existing contact ends with exactly the
      given phone. The phones are cleared before the new one is validated, so
      an invalid phone leaves the contact with none while `CheckPhoneNumber`
      escapes. An unknown name changes nothing. */
  function ChangeContact(args: seq<string>, book: AddressBook): (o: Outcome)
    ensures |args| < 2 ==> o == Outcome(book, Success(Text(IncorrectValue)))
    ensures |args| >= 2 && args[0] !in book.data ==> o == Outcome(book, Success(Text("Contact not found.")))
    ensures |args| >= 2 && args[0] in book.data ==>
      && args[0] in o.book.data
      && o.book.data[args[0]] ==
           book.data[args[0]].(phones := if NewPhone(args[1]).Success? then [Phone(args[1])] else [])
      && o.book.order == book.order
      && (forall k :: k != args[0] ==> Find(o.book, k) == Find(book, k))
      && (o.reply == Success(Text("Contact changed.")) <==> NewPhone(args[1]).Success?)
      && (NewPhone(args[1]).Failure? ==> o.reply == Failure(CheckPhoneNumber(NewPhone(args[1]).error)))
    ensures Valid(book) ==> Valid(o.book)
  {
    InputError(ChangeContactBody(args, book))
  }

  // ---------------------------------------------------------------------------
  // phone

  function GetPhoneBody(args: seq<string>, book: AddressBook): Outcome {
    if |args| < 1 then Outcome(book, Failure(ValueError(NotEnoughArguments)))
    else
      match Find(book, args[0])
      case None => Outcome(book, Success(Text("Contact not found!")))
      case Some(r) => Outcome(book, Success(Text(Show(r))))
  }

  /** `get_phone(args, book)`: the contact's text line, read-only. */
  function GetPhone(args: seq<string>, book: AddressBook): (o: Outcome)
    ensures o.book == book
    ensures |args| == 0 ==> o.reply == Success(Text(IncorrectValue))
    ensures |args| > 0 && args[0] !in book.data ==> o.reply == Success(Text("Contact not found!"))
    ensures |args| > 0 && args[0] in book.data ==> o.reply == Success(Text(Show(book.data[args[0]])))
  {
    InputError(GetPhoneBody(args, book))
  }

  // ---------------------------------------------------------------------------
  // add-birthday

  function AddBirthdayBody(args: seq<string>, book: AddressBook): Outcome {
    if |args| < 2 then Outcome(book, Failure(ValueError(NotEnoughArguments)))
    else
      var name, date := args[0], args[1];
      var message := if name in book.data then "Contact birthday updated." else "Contact added. Birthday updated.";
      var (book1, record) := FindOrCreate(book, name);
      if |date| == 0 then Outcome(book1, Success(Text(message)))
      else
        match SetBirthday(record, date)
        case Failure(_) => Outcome(book1, Failure(ValueError(BadBirthday)))
        case Success(r) => Outcome(Store(book1, name, r), Success(Text(message)))
  }

  /** `add_birthday(args, book)`: creates the contact if needed, then sets the
      birthday. The contact is added before the date is parsed, so a bad date
      still leaves a new contact without a birthday, and the reply is
      "Incorrect value."; a bad date never changes an existing birthday. An
      empty date is skipped and the reply is the usual message. */
  function AddBirthday(args: seq<string>, book: AddressBook): (o: Outcome)
    ensures o.reply.Success?
    ensures |args| < 2 ==> o == Outcome(book, Success(Text(IncorrectValue)))
    ensures |args| >= 2 ==> args[0] in o.book.data
    ensures |args| >= 2 ==> forall k :: k != args[0] ==> Find(o.book, k) == Find(book, k)
    ensures |args| >= 2 ==> o.book.data[args[0]].phones == PriorPhones(book, args[0])
    ensures |args| >= 2 && |args[1]| > 0 && NewBirthday(args[1]).Failure? ==>
      o.reply == Success(Text(IncorrectValue)) && o.book.data[args[0]].birthday == PriorBirthday(book, args[0])
    ensures |args| >= 2 && |args[1]| == 0 ==>
      && o.book.data[args[0]].birthday == PriorBirthday(book, args[0])
      && o.reply == Success(Text(if args[0] in book.data then "Contact birthday updated." else "Contact added. Birthday updated."))
    ensures |args| >= 2 && NewBirthday(args[1]).Success? ==>
      && o.book.data[args[0]].birthday == Some(NewBirthday(args[1]).value)
      && o.reply == Success(Text(if args[0] in book.data then "Contact birthday updated." else "Contact added. Birthday updated."))
    ensures |args| >= 2 ==> o.book.order == (if args[0] in book.data then book.order else book.order + [args[0]])
    ensures Valid(book) ==> Valid(o.book)
  {
    InputError(AddBirthdayBody(args, book))
  }

  // ---------------------------------------------------------------------------
  // show-birthday

  function ShowBirthdayBody(args: seq<string>, book: AddressBook): Outcome
    requires Valid(book)
  {
    if |args| < 1 then Outcome(book, Failure(ValueError(NotEnoughArguments)))
    else
      match Find(book, args[0])
      case None => Outcome(book, Success(Text("Contact not found!")))
      case Some(r) =>
        match r.birthday
        case Some(d) => Outcome(book, Success(Text(FormatDate(d))))
        case None => Outcome(book, Success(NoReply))
  }

  /** `show_birthday(args, book)`: the stored birthday as `DD.MM.YYYY`, or None
      when the contact has none; read-only. */
  function ShowBirthday(args: seq<string>, book: AddressBook): (o: Outcome)
    requires Valid(book)
    ensures o.book == book
    ensures |args| == 0 ==> o.reply == Success(Text(IncorrectValue))
    ensures |args| > 0 && args[0] !in book.data ==> o.reply == Success(Text("Contact not found!"))
    ensures |args| > 0 && args[0] in book.data && book.data[args[0]].birthday.None? ==> o.reply == Success(NoReply)
    ensures |args| > 0 && args[0] in book.data && book.data[args[0]].birthday.Some? ==>
      && o.reply == Success(Text(FormatDate(book.data[args[0]].birthday.value)))
      && ParseDate(o.reply.value.text) == book.data[args[0]].birthday
  {
    if |args| > 0 && args[0] in book.data && book.data[args[0]].birthday.Some? then
      FormatParseRoundTrip(book.data[args[0]].birthday.value);
      InputError(ShowBirthdayBody(args, book))
    else
      InputError(ShowBirthdayBody(args, book))
  }

  // ---------------------------------------------------------------------------
  // Across handlers

  /** A birthday stored with `add-birthday` in `DD.MM.YYYY` form is shown back
      by `show-birthday` exactly as it was given. */
  lemma AddThenShowBirthday(book: AddressBook, name: string, d: Date)
    requires Valid(book) && ValidDate(d)
    ensures ShowBirthday([name], AddBirthday([name, FormatDate(d)], book).book).reply == Success(Text(FormatDate(d)))
  {
    BirthdayRoundTrip(FormatDate(d), d);
    var o := AddBirthday([name, FormatDate(d)], book);
    assert o.book.data[name].birthday == Some(d);
  }
}
