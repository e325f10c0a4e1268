/**
 * Account registration: the checks the registration handler makes before
 * inserting a row into the accounts table, and the insert itself.
 *
 * The e-mail test is the pattern ^[a-zA-Z0-9_.+-]+@[a-zA-Z0-9-]+\.[a-zA-Z0-9-.]+$
 * applied with Python's re.match, written out over character classes.
 */
module Registration {

  /** A row of the accounts table; the password is stored only as its hash. */
  datatype Account = Account(nome: string, usuario: string, email: string, senhaHash: string)

  datatype RegistrationOutcome = MissingField | InvalidEmail | AlreadyExists | Registered

  predicate IsAsciiAlnum(c: char) {
    'a' <= c <= 'z' || 'A' <= c <= 'Z' || '0' <= c <= '9'
  }

  /** [a-zA-Z0-9_.+-]: the characters before the '@'. */
  predicate IsLocalChar(c: char) {
    IsAsciiAlnum(c) || c == '_' || c == '.' || c == '+' || c == '-'
  }

  /** [a-zA-Z0-9-]: the characters between the '@' and the first '.'. */
  predicate IsLabelChar(c: char) {
    IsAsciiAlnum(c) || c == '-'
  }

  /** [a-zA-Z0-9-.]: the characters after that '.'. */
  predicate IsTailChar(c: char) {
    IsAsciiAlnum(c) || c == '-' || c == '.'
  }

  predicate AllLocal(s: string) { forall i :: 0 <= i < |s| ==> IsLocalChar(s[i]) }
  predicate AllLabel(s: string) { forall i :: 0 <= i < |s| ==> IsLabelChar(s[i]) }
  predicate AllTail(s: string) { forall i :: 0 <= i < |s| ==> IsTailChar(s[i]) }

  /**
   * The pattern, read as a language: some split of s into a non-empty
   * local part, '@', a non-empty label, '.', and a non-empty tail.
   */
  ghost predicate EmailPattern(s: string) {
    exists i, j :: 0 < i && i + 1 < j && j + 1 < |s| && s[i] == '@' && s[j] == '.' &&
      AllLocal(s[..i]) && AllLabel(s[i + 1..j]) && AllTail(s[j + 1..])
  }

  /** The position of the first c in s, or |s| when there is none. */
  function IndexOf(s: string, c: char): (k: nat)
    ensures k <= |s|
    ensures forall i :: 0 <= i < k ==> s[i] != c
    ensures k < |s| ==> s[k] == c
  {
    if s == [] || s[0] == c then 0 else 1 + IndexOf(s[1..], c)
  }

  /**
   * The recogniser: the local part runs up to the first '@' (the local
   * class has no '@'), the label up to the next '.' (the label class has
   * no '.'), and the rest is the tail.
   */
  predicate MatchesPattern(s: string) {
    var at := IndexOf(s, '@');
    0 < at < |s| && AllLocal(s[..at]) &&
    var rest := s[at + 1..];
    var dot := IndexOf(rest, '.');
    0 < dot && dot + 1 < |rest| && AllLabel(rest[..dot]) && AllTail(rest[dot + 1..])
  }

  /** The first occurrence of c is the one no earlier c precedes. */
  lemma IndexOfIs(s: string, c: char, i: nat)
    requires i < |s| && s[i] == c
    requires forall k :: 0 <= k < i ==> s[k] != c
    ensures IndexOf(s, c) == i
  {
  }

  lemma MatchesPatternSound(s: string)
    requires MatchesPattern(s)
    ensures EmailPattern(s)
  {
    var at := IndexOf(s, '@');
    var rest := s[at + 1..];
    var dot := IndexOf(rest, '.');
    var j := at + 1 + dot;
    assert s[at + 1..j] == rest[..dot];
    assert s[j + 1..] == rest[dot + 1..];
    assert s[j] == '.';
  }

  lemma MatchesPatternComplete(s: string, i: nat, j: nat)
    requires 0 < i && i + 1 < j && j + 1 < |s| && s[i] == '@' && s[j] == '.'
    requires AllLocal(s[..i]) && AllLabel(s[i + 1..j]) && AllTail(s[j + 1..])
    ensures MatchesPattern(s)
  {
    forall k | 0 <= k < i ensures s[k] != '@' {
      assert IsLocalChar(s[..i][k]);
    }
    IndexOfIs(s, '@', i);
    var rest := s[i + 1..];
    var m := j - i - 1;
    forall k | 0 <= k < m ensures rest[k] != '.' {
      assert rest[k] == s[i + 1..j][k];
    }
    IndexOfIs(rest, '.', m);
    assert rest[..m] == s[i + 1..j];
    assert rest[m + 1..] == s[j + 1..];
  }

  /** The recogniser accepts exactly the strings of the pattern. */
  lemma MatchesPatternIff(s: string)
    ensures MatchesPattern(s) <==> EmailPattern(s)
  {
    if MatchesPattern(s) {
      MatchesPatternSound(s);
    }
    if EmailPattern(s) {
      var i, j :| 0 < i && i + 1 < j && j + 1 < |s| && s[i] == '@' && s[j] == '.' &&
        AllLocal(s[..i]) && AllLabel(s[i + 1..j]) && AllTail(s[j + 1..]);
      MatchesPatternComplete(s, i, j);
    }
  }

  /**
   * Python's re.match with a final `$`: the match starts at the beginning
   * and `$` matches at the end of the string or just before a newline that
   * ends it.
   */
  predicate IsValidEmail(s: string)
    ensures IsValidEmail(s) <==>
      EmailPattern(s) || (|s| > 0 && s[|s| - 1] == '\n' && EmailPattern(s[..|s| - 1]))
  {
    MatchesPatternIff(s);
    if |s| > 0 then
      MatchesPatternIff(s[..|s| - 1]);
      MatchesPattern(s) || (s[|s| - 1] == '\n' && MatchesPattern(s[..|s| - 1]))
    else
      MatchesPattern(s)
  }

  /** In a string of the pattern (no trailing newline) the first '@' is the only one. */
  lemma PatternHasOneAt(b: string)
    requires MatchesPattern(b)
    ensures var at := IndexOf(b, '@');
      && 0 < at < |b|
      && (forall k :: 0 <= k < |b| && k != at ==> b[k] != '@')
      && at + 1 + IndexOf(b[at + 1..], '.') < |b|
      && b[at + 1 + IndexOf(b[at + 1..], '.')] == '.'
  {
    var at := IndexOf(b, '@');
    var rest := b[at + 1..];
    var dot := IndexOf(rest, '.');
    NoAtAfterFirst(rest, dot);
    forall k | at < k < |b| ensures b[k] != '@' {
      assert rest[k - at - 1] == b[k];
    }
  }

  lemma NoAtAfterFirst(rest: string, dot: nat)
    requires dot < |rest| && rest[dot] == '.'
    requires AllLabel(rest[..dot]) && AllTail(rest[dot + 1..])
    ensures forall m :: 0 <= m < |rest| ==> rest[m] != '@'
  {
  }

  /**
   * Every accepted address has exactly one '@', with a non-empty local
   * part before it and a '.' somewhere after it.
   */
  lemma ValidEmailShape(s: string)
    requires IsValidEmail(s)
    ensures exists i ::
      && 0 < i < |s| && s[i] == '@'
      && (forall k :: 0 <= k < |s| && s[k] == '@' ==> k == i)
      && (exists j :: i < j < |s| && s[j] == '.')
  {
    if MatchesPattern(s) {
      ShapeOfBody(s, s);
    } else {
      ShapeOfBody(s, s[..|s| - 1]);
    }
  }

  /** The shape facts carry over from the matched body to the body possibly followed by a newline. */
  lemma ShapeOfBody(s: string, body: string)
    requires MatchesPattern(body)
    requires s == body || (|s| == |body| + 1 && body == s[..|body|] && s[|body|] == '\n')
    ensures exists i ::
      && 0 < i < |s| && s[i] == '@'
      && (forall k :: 0 <= k < |s| && s[k] == '@' ==> k == i)
      && (exists j :: i < j < |s| && s[j] == '.')
  {
    PatternHasOneAt(body);
    var at := IndexOf(body, '@');
    var j := at + 1 + IndexOf(body[at + 1..], '.');
    assert s[j] == body[j] == '.';
    assert s[at] == body[at];
    forall k | 0 <= k < |s| && s[k] == '@' ensures k == at {
      if k < |body| {
        assert body[k] == s[k];
      }
    }
  }

  /** Some row already has this user name or this e-mail. */
  predicate Taken(rows: seq<Account>, usuario: string, email: string) {
    exists i :: 0 <= i < |rows| && (rows[i].usuario == usuario || rows[i].email == email)
  }

  /** The handler's checks, in its order: empty fields, e-mail shape, duplicates. */
  function Check(rows: seq<Account>, nome: string, usuario: string, email: string, senha: string)
    : (o: RegistrationOutcome)
    ensures o == MissingField <==> (nome == [] || usuario == [] || email == [] || senha == [])
    ensures o == InvalidEmail ==> email != [] && !IsValidEmail(email)
    ensures o == AlreadyExists ==> IsValidEmail(email) && Taken(rows, usuario, email)
  {
    if nome == [] || usuario == [] || email == [] || senha == [] then MissingField
    else if !IsValidEmail(email) then InvalidEmail
    else if Taken(rows, usuario, email) then AlreadyExists
    else Registered
  }

  /**
   * A registration is accepted exactly when every field is filled, the
   * e-mail is in the pattern (possibly followed by one newline), and no row
   * has the same user name or the same e-mail.
   */
  lemma RegisteredIff(rows: seq<Account>, nome: string, usuario: string, email: string, senha: string)
    ensures Check(rows, nome, usuario, email, senha) == Registered <==>
      && nome != [] && usuario != [] && email != [] && senha != []
      && (EmailPattern(email) ||
          (email[|email| - 1] == '\n' && EmailPattern(email[..|email| - 1])))
      && forall i :: 0 <= i < |rows| ==> rows[i].usuario != usuario && rows[i].email != email
  {
  }

  /** No two rows share a user name, and no two share an e-mail. */
  ghost predicate Unique(rows: seq<Account>) {
    forall i, j :: 0 <= i < j < |rows| ==>
      rows[i].usuario != rows[j].usuario && rows[i].email != rows[j].email
  }

  /** An accepted registration keeps user names and e-mails unique. */
  lemma RegisterKeepsUnique(rows: seq<Account>, nome: string, usuario: string, email: string,
                            senha: string, senhaHash: string)
    requires Unique(rows)
    requires Check(rows, nome, usuario, email, senha) == Registered
    ensures Unique(rows + [Account(nome, usuario, email, senhaHash)])
  {
  }

  /** The accounts table. */
  class AccountTable {
    var rows: seq<Account>

    ghost predicate Valid()
      reads this
    {
      Unique(rows)
    }

    constructor ()
      ensures Valid() && rows == []
    {
      rows := [];
    }

    /**
     * Register an account. senhaHash is the salted hash of senha, computed
     * by the caller. On success exactly one row is appended; otherwise the
     * table is unchanged.
     */
    method Register(nome: string, usuario: string, email: string, senha: string, senhaHash: string)
      returns (o: RegistrationOutcome)
      requires Valid()
      modifies this
      ensures Valid()
      ensures o == Check(old(rows), nome, usuario, email, senha)
      ensures o == Registered ==> rows == old(rows) + [Account(nome, usuario, email, senhaHash)]
      ensures o != Registered ==> rows == old(rows)
    {
      o := Check(rows, nome, usuario, email, senha);
      if o == Registered {
        RegisterKeepsUnique(rows, nome, usuario, email, senha, senhaHash);
        rows := rows + [Account(nome, usuario, email, senhaHash)];
      }
    }
  }
}
