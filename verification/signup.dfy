/** Registration (users/views.py): `SignUp.form_valid` mails a confirmation
    built by `send_email` and then saves the new user. */
module Signup {
  import opened Models
  import opened Views

  /** A Python value passed as a name: `None` or a string. */
  datatype NameArg = NoneName | Name(value: string)

  /** Python truthiness: `None` and the empty string are false. */
  predicate Truthy(n: NameArg)
  {
    n.Name? && n.value != []
  }

  /** How an f-string renders the value: `None` prints as "None". */
  function Render(n: NameArg): string
  {
    match n
    case NoneName => "None"
    case Name(v) => v
  }

  /** One outgoing e-mail. */
  datatype Mail = Mail(subject: string, body: string, fromEmail: string, to: seq<string>)

  const Subject: string := "Регистрация пользователя"
  const Sender: string := "yatube@mail.ru"
  /** The thanks, lower-cased after a comma. */
  const ThanksAfterNames: string := ", благодарим"
  /** The thanks, capitalised, when neither name is given. */
  const ThanksAlone: string := "Благодарим"
  const Closing: string := " за регистрацию на нашем сайте!"

  /** The message body: last name, a space, first name, then the thanks. */
  function Body(firstName: NameArg, lastName: NameArg): (b: string)
    ensures |b| > |Render(lastName)| + 1 + |Render(firstName)|
    ensures b[..|Render(lastName)|] == Render(lastName)
    ensures b[|Render(lastName)|] == ' '
    ensures b[|Render(lastName)| + 1 .. |Render(lastName)| + 1 + |Render(firstName)|] == Render(firstName)
    ensures Truthy(firstName) || Truthy(lastName) ==>
      b[|Render(lastName)| + 1 + |Render(firstName)|..] == ", благодарим за регистрацию на нашем сайте!"
    ensures !Truthy(firstName) && !Truthy(lastName) ==>
      b[|Render(lastName)| + 1 + |Render(firstName)|..] == "Благодарим за регистрацию на нашем сайте!"
  {
    var text := Thanks(firstName, lastName);
    ThanksAfterNamesWithClosing();
    ThanksAloneWithClosing();
    Layout(Render(lastName), Render(firstName), text + Closing);
    Associative(Render(lastName) + " " + Render(firstName), text, Closing);
    Render(lastName) + " " + Render(firstName) + text + Closing
  }

  /** The thanks that follow the names: capitalised when neither name is truthy. */
  function Thanks(firstName: NameArg, lastName: NameArg): string
  {
    if !Truthy(firstName) && !Truthy(lastName) then ThanksAlone else ThanksAfterNames
  }

  lemma ThanksAfterNamesWithClosing()
    ensures ", благодарим" + " за регистрацию на нашем сайте!" == ", благодарим за регистрацию на нашем сайте!"
  {
  }

  lemma ThanksAloneWithClosing()
    ensures "Благодарим" + " за регистрацию на нашем сайте!" == "Благодарим за регистрацию на нашем сайте!"
  {
  }

  /** Where the pieces of `last + " " + first + tail` sit. */
  lemma Layout(last: string, first: string, tail: string)
    ensures var b := last + " " + first + tail;
      && b == last + " " + first + tail
      && |b| == |last| + 1 + |first| + |tail|
      && b[..|last|] == last
      && b[|last|] == ' '
      && b[|last| + 1 .. |last| + 1 + |first|] == first
      && b[|last| + 1 + |first|..] == tail
  {
    var b := last + " " + first + tail;
    assert b == last + ([' '] + (first + tail));
    assert b[|last| + 1..] == first + tail;
  }

  /** Every body ends with the closing words. */
  lemma BodyEndsWithClosing(firstName: NameArg, lastName: NameArg)
    ensures |Body(firstName, lastName)| >= |Closing|
    ensures Body(firstName, lastName)[|Body(firstName, lastName)| - |Closing|..] == Closing
  {
    EndsWith(Render(lastName) + " " + Render(firstName) + Thanks(firstName, lastName), Closing);
  }

  lemma Associative(a: string, b: string, c: string)
    ensures a + (b + c) == a + b + c
  {
  }

  lemma EndsWith(a: string, c: string)
    ensures (a + c)[|a + c| - |c|..] == c
  {
  }

  /** A comma follows the names exactly when one of them is truthy. */
  lemma CommaIffSomeName(firstName: NameArg, lastName: NameArg)
    ensures var at := |Render(lastName)| + 1 + |Render(firstName)|;
      Body(firstName, lastName)[at] == ',' <==> Truthy(firstName) || Truthy(lastName)
  {
    var front := Render(lastName) + " " + Render(firstName);
    var text := Thanks(firstName, lastName);
    Associative(front, text, Closing);
    assert Body(firstName, lastName)[|front|] == (text + Closing)[0] == text[0];
  }

  /** `send_email`: appends exactly one message to the outbox, addressed to
      `email` alone, and sends nothing else. */
  function SendEmail(outbox: seq<Mail>, email: string, firstName: NameArg, lastName: NameArg): (r: seq<Mail>)
    ensures |r| == |outbox| + 1
    ensures r[..|outbox|] == outbox
    ensures r[|outbox|].subject == "Регистрация пользователя"
    ensures r[|outbox|].fromEmail == "yatube@mail.ru"
    ensures r[|outbox|].to == [email]
    ensures r[|outbox|].body == Body(firstName, lastName)
  {
    outbox + [Mail(Subject, Body(firstName, lastName), Sender, [email])]
  }

  /** The cleaned fields of the registration form. */
  datatype SignupForm = SignupForm(username: Username, email: string, firstName: string, lastName: string)

  /** The store, the outbox and the response after registration. */
  datatype SignupOutcome = SignupOutcome(store: Store, outbox: seq<Mail>, response: Response)

  /** `form_valid`: mails the confirmation built from the cleaned e-mail,
      first and last name, unchanged, then saves the user and redirects to
      the login page. */
  function FormValid(s: Store, outbox: seq<Mail>, form: SignupForm): (r: SignupOutcome)
    ensures r.outbox == SendEmail(outbox, form.email, Name(form.firstName), Name(form.lastName))
    ensures r.store.users == s.users + {form.username}
    ensures r.store.(users := s.users) == s
    ensures r.response == Redirect(LoginUrl)
  {
    var sent := SendEmail(outbox, form.email, Name(form.firstName), Name(form.lastName));
    SignupOutcome(AddUser(s, form.username), sent, Redirect(LoginUrl))
  }

  /** The message the registration test expects for a user registered with
      first name "first_name" and last name "last_name" (the body is written
      as the names followed by the thanks). */
  lemma RegistrationMailExample(email: string)
    ensures SendEmail([], email, Name("first_name"), Name("last_name")) ==
      [Mail("Регистрация пользователя",
            "last_name first_name" + ", благодарим за регистрацию на нашем сайте!",
            "yatube@mail.ru",
            [email])]
  {
    JoinNames();
    Associative("last_name" + " " + "first_name", ThanksAfterNames, Closing);
    ThanksAfterNamesWithClosing();
  }

  lemma JoinNames()
    ensures "last_name" + " " + "first_name" == "last_name first_name"
  {
  }

  /** With neither name truthy the capitalised greeting follows the rendered
      names directly: the empty last name leaves a leading space and `None`
      prints as "None". */
  lemma AnonymousMailExample()
    ensures Body(NoneName, Name("")) == " None" + "Благодарим за регистрацию на нашем сайте!"
  {
    assert "" + " " + "None" == " None";
    Associative("" + " " + "None", ThanksAlone, Closing);
    ThanksAloneWithClosing();
  }
}
