/** One contact: a name, an ordered list of phones (duplicates allowed) and an
    optional birthday, with the operations of the `Record` class. Each mutating
    method becomes a function from the old record to the new one; a method that
    raises returns `Failure`, and the caller keeps the record it had. */
module Records {
  import opened Results
  import opened Text
  import opened Calendar
  import opened Fields
  import opened Sequences

  datatype Record = Record(name: string, phones: seq<Phone>, birthday: Option<Date>)

  /** `Record(name)`: no phones, no birthday. */
  function NewRecord(name: string): (r: Record)
    ensures r.name == name && |r.phones| == 0 && r.birthday.None?
    ensures WellFormed(r)
  {
    Record(name, [], None)
  }

  /** What a record built through its own operations always satisfies. */
  predicate WellFormed(r: Record) {
    && (forall i :: 0 <= i < |r.phones| ==> ValidPhone(r.phones[i]))
    && (r.birthday.Some? ==> ValidDate(r.birthday.value))
  }

  predicate HasPhone(ps: seq<Phone>, value: string) {
    exists i :: 0 <= i < |ps| && ps[i].value == value
  }

  // ---------------------------------------------------------------------------
  // add_phone, remove_phone, remove_all_phones

  /** `add_phone(value)`: validates, then appends. */
  function AddPhone(r: Record, value: string): (r': Result<Record, PhoneError>)
    ensures r'.Success? <==> NewPhone(value).Success?
    ensures r'.Failure? ==> r'.error == NewPhone(value).error
    ensures r'.Success? ==> r'.value == r.(phones := r.phones + [Phone(value)])
    ensures r'.Success? && WellFormed(r) ==> WellFormed(r'.value)
  {
    match NewPhone(value)
    case Failure(e) => Failure(e)
    case Success(p) => Success(r.(phones := r.phones + [p]))
  }

  /** The entries of `ps` whose value differs from `value`, in their order. */
  function Without(ps: seq<Phone>, value: string): (qs: seq<Phone>)
    ensures forall i :: 0 <= i < |qs| ==> qs[i].value != value
    ensures IsSubsequence(qs, ps)
  {
    if |ps| == 0 then []
    else
      var rest := Without(ps[1..], value);
      assert ps == [ps[0]] + ps[1..];
      if ps[0].value == value then
        SkipHead(rest, ps);
        rest
      else
        KeepHead(ps[0], rest, ps[1..]);
        [ps[0]] + rest
  }

  /** `Without` keeps every other phone as often as it occurred. */
  lemma WithoutKeepsCounts(ps: seq<Phone>, value: string)
    ensures forall p: Phone :: p.value != value ==> multiset(Without(ps, value))[p] == multiset(ps)[p]
  {
    forall p: Phone | p.value != value
      ensures multiset(Without(ps, value))[p] == multiset(ps)[p]
    {
      WithoutKeepsCount(ps, value, p);
    }
  }

  lemma {:induction false} WithoutKeepsCount(ps: seq<Phone>, value: string, p: Phone)
    requires p.value != value
    ensures multiset(Without(ps, value))[p] == multiset(ps)[p]
    decreases |ps|
  {
    if |ps| > 0 {
      WithoutKeepsCount(ps[1..], value, p);
      WithoutCons(ps, value);
      var rest := Without(ps[1..], value);
      assert ps == [ps[0]] + ps[1..];
      CountCons(ps[0], ps[1..], p);
      if ps[0].value != value {
        CountCons(ps[0], rest, p);
      }
    }
  }

  lemma WithoutCons(ps: seq<Phone>, value: string)
    requires |ps| > 0
    ensures Without(ps, value) ==
      if ps[0].value == value then Without(ps[1..], value) else [ps[0]] + Without(ps[1..], value)
  {
  }

  lemma CountCons(x: Phone, xs: seq<Phone>, p: Phone)
    ensures multiset([x] + xs)[p] == (if x == p then 1 else 0) + multiset(xs)[p]
  {
    assert multiset([x] + xs) == multiset{x} + multiset(xs);
  }

  /** `remove_phone(value)`: drops every entry equal to `value`; the others keep
      their order and multiplicity; nothing changes when `value` is absent. */
  function RemovePhone(r: Record, value: string): (r': Record)
    ensures forall i :: 0 <= i < |r'.phones| ==> r'.phones[i].value != value
    ensures IsSubsequence(r'.phones, r.phones)
    ensures forall p: Phone :: p.value != value ==> multiset(r'.phones)[p] == multiset(r.phones)[p]
    ensures r'.name == r.name && r'.birthday == r.birthday
    ensures !HasPhone(r.phones, value) ==> r' == r
    ensures WellFormed(r) ==> WellFormed(r')
  {
    SubsequenceReflexive(r.phones);
    WithoutKeepsCounts(r.phones, value);
    if HasPhone(r.phones, value) then r.(phones := Without(r.phones, value)) else r
  }

  /** `remove_all_phones()`. */
  function RemoveAllPhones(r: Record): (r': Record)
    ensures |r'.phones| == 0
    ensures r'.name == r.name && r'.birthday == r.birthday
    ensures WellFormed(r) ==> WellFormed(r')
  {
    r.(phones := [])
  }

  /** Clearing the phones and adding a valid one leaves exactly that one. */
  lemma ClearThenAddLeavesOnePhone(r: Record, value: string)
    requires NewPhone(value).Success?
    ensures AddPhone(RemoveAllPhones(r), value).Success?
    ensures AddPhone(RemoveAllPhones(r), value).value.phones == [Phone(value)]
  {
  }

  // ---------------------------------------------------------------------------
  // edit_phone

  /** Every entry equal to `oldValue` replaced by `Phone(newValue)`. */
  function Replace(ps: seq<Phone>, oldValue: string, newValue: string): (qs: seq<Phone>)
    ensures |qs| == |ps|
    ensures forall i :: 0 <= i < |ps| ==> qs[i] == (if ps[i].value == oldValue then Phone(newValue) else ps[i])
  {
    if |ps| == 0 then []
    else [if ps[0].value == oldValue then Phone(newValue) else ps[0]] + Replace(ps[1..], oldValue, newValue)
  }

  /** `edit_phone(old_phone, new_phone)`: the new value is validated before the list is
      touched; `CheckPhoneNumber` is not a `ValueError`, so the method's
      `except ValueError` does not catch it and it propagates. */
  function EditPhone(r: Record, oldValue: string, newValue: string): (r': Result<Record, PhoneError>)
    ensures r'.Failure? <==> NewPhone(newValue).Failure?
    ensures r'.Failure? ==> r'.error == NewPhone(newValue).error
    ensures r'.Success? ==> r'.value.name == r.name && r'.value.birthday == r.birthday
    ensures r'.Success? ==> |r'.value.phones| == |r.phones|
    ensures r'.Success? ==> forall i :: 0 <= i < |r.phones| ==>
      r'.value.phones[i] == (if r.phones[i].value == oldValue then Phone(newValue) else r.phones[i])
    ensures r'.Success? && WellFormed(r) ==> WellFormed(r'.value)
  {
    match NewPhone(newValue)
    case Failure(e) => Failure(e)
    case Success(_) => Success(r.(phones := Replace(r.phones, oldValue, newValue)))
  }

  // ---------------------------------------------------------------------------
  // find_phone

  /** What `find_phone` returns: the matching Phone object, or the text of the
      exhausted iterator's exception. */
  datatype PhoneLookup = Found(phone: Phone) | NotFound(text: string)

  /** Index of the first entry whose value is `value`. */
  function FirstMatch(ps: seq<Phone>, value: string): (k: Option<nat>)
    ensures k.Some? ==> k.value < |ps| && ps[k.value].value == value
    ensures k.Some? ==> forall j :: 0 <= j < k.value ==> ps[j].value != value
    ensures k.None? <==> !HasPhone(ps, value)
  {
    if |ps| == 0 then None
    else if ps[0].value == value then Some(0)
    else
      match FirstMatch(ps[1..], value)
      case None =>
        assert forall i :: 1 <= i < |ps| ==> ps[i] == ps[1..][i - 1];
        None
      case Some(k) => Some(k + 1)
  }

  /** `find_phone(value)`: the first entry equal to `value`; when there is none,
      `next` raises StopIteration, which is caught and returned as its text, the
      empty string. */
  function FindPhone(r: Record, value: string): (l: PhoneLookup)
    ensures l.Found? ==> l.phone.value == value
    ensures l.Found? ==> exists i :: (0 <= i < |r.phones| && r.phones[i] == l.phone &&
      forall j :: 0 <= j < i ==> r.phones[j].value != value)
    ensures l.NotFound? <==> !HasPhone(r.phones, value)
    ensures l.NotFound? ==> l.text == ""
  {
    match FirstMatch(r.phones, value)
    case Some(k) => Found(r.phones[k])
    case None => NotFound("")
  }

  // ---------------------------------------------------------------------------
  // add_birthday

  /** `add_birthday(value)`: parses, then overwrites any earlier birthday. */
  function SetBirthday(r: Record, value: string): (r': Result<Record, BirthdayError>)
    ensures r'.Success? <==> NewBirthday(value).Success?
    ensures r'.Success? ==> r'.value == r.(birthday := Some(NewBirthday(value).value))
    ensures r'.Success? && WellFormed(r) ==> WellFormed(r'.value)
  {
    BirthdayRoundTrip(value, FirstDate);
    match NewBirthday(value)
    case Failure(e) => Failure(e)
    case Success(d) => Success(r.(birthday := Some(d)))
  }

  // ---------------------------------------------------------------------------
  // __str__

  /** `'; '.join` of the phone values. */
  function JoinPhones(ps: seq<Phone>): string {
    if |ps| == 0 then ""
    else if |ps| == 1 then ps[0].value
    else ps[0].value + "; " + JoinPhones(ps[1..])
  }

  const NamePrefix: string := "Contact name: "
  const PhonesPrefix: string := ", phones: "

  /** `str(record)`: the name and the phones joined with "; ". */
  function Show(r: Record): string {
    NamePrefix + r.name + PhonesPrefix + JoinPhones(r.phones)
  }

  /** Reads back the phone list from its joined text. */
  function SplitPhones(s: string): seq<Phone>
    decreases |s|
  {
    if |s| == 0 then []
    else
      var i := IndexOf(s, ';');
      if i + 2 > |s| then [Phone(s[..i])]
      else [Phone(s[..i])] + SplitPhones(s[i + 2..])
  }

  lemma {:induction false} SplitJoin(ps: seq<Phone>)
    requires forall i :: 0 <= i < |ps| ==> ValidPhone(ps[i])
    ensures SplitPhones(JoinPhones(ps)) == ps
    decreases |ps|
  {
    if |ps| == 1 {
      var s := ps[0].value;
      assert forall j :: 0 <= j < |s| ==> s[j] != ';' by {
        assert ValidPhone(ps[0]);
      }
      assert IndexOf(s, ';') == |s|;
      assert s[..|s|] == s;
      assert ps == [Phone(s)];
    } else if |ps| > 1 {
      var head := ps[0].value;
      var tail := JoinPhones(ps[1..]);
      assert ValidPhone(ps[0]);
      assert forall j :: 0 <= j < |head| ==> head[j] != ';';
      assert JoinPhones(ps) == head + [';'] + (" " + tail);
      IndexOfPrefix(head, ';', " " + tail);
      var s := JoinPhones(ps);
      assert s[..|head|] == head;
      assert s[|head| + 2..] == tail;
      SplitJoin(ps[1..]);
    }
  }

  /** The text of a well-formed record determines its phones: after the fixed
      prefix and the name, the rest splits back into exactly the stored list. */
  lemma ShowDeterminesPhones(r: Record)
    requires WellFormed(r)
    ensures var prefix := NamePrefix + r.name + PhonesPrefix;
      |prefix| <= |Show(r)| && Show(r)[..|prefix|] == prefix &&
      SplitPhones(Show(r)[|prefix|..]) == r.phones
  {
    var prefix := NamePrefix + r.name + PhonesPrefix;
    assert Show(r) == prefix + JoinPhones(r.phones);
    assert Show(r)[|prefix|..] == JoinPhones(r.phones);
    SplitJoin(r.phones);
  }
}
