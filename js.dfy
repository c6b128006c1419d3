/** JavaScript value semantics that the user and job controllers rely on:
    truthiness of request-body fields, string conversion, and the two
    regular expressions that validate user names and e-mail addresses. */
module Js {
  import opened Options

  /** A request-body field as the controllers tell them apart: a missing key
      reads as `undefined`, JSON `null`, a string, or an array of ids. */
  datatype BodyValue = Undefined | Null | Str(s: string) | List(items: seq<string>)

  /** `!!v` in JavaScript: only the empty string, null and undefined are falsy
      among these values; an array is truthy even when empty. */
  predicate Truthy(v: BodyValue) {
    match v
    case Undefined => false
    case Null => false
    case Str(s) => s != ""
    case List(_) => true
  }

  /** `!!field` for a string field read from a body, where absent and null are `None`. */
  predicate Present(o: Option<string>) {
    o.Some? && o.value != ""
  }

  /** `a.join(",")` on an array of strings. */
  function Join(items: seq<string>): (r: string)
    ensures items == [] ==> r == ""
  {
    if items == [] then ""
    else if |items| == 1 then items[0]
    else items[0] + "," + Join(items[1..])
  }

  /** `String(v)`, the text a regular expression's `test` is applied to. */
  function ToJsString(v: BodyValue): string {
    match v
    case Undefined => "undefined"
    case Null => "null"
    case Str(s) => s
    case List(items) => Join(items)
  }

  /** The characters matched by `\s` in a JavaScript regular expression. */
  predicate IsWhitespace(c: char) {
    || c == '\t' || c == '\n' || c == '\U{B}' || c == '\U{C}' || c == '\r' || c == ' '
    || c == '\U{A0}' || c == '\U{1680}' || ('\U{2000}' <= c <= '\U{200A}')
    || c == '\U{2028}' || c == '\U{2029}' || c == '\U{202F}' || c == '\U{205F}'
    || c == '\U{3000}' || c == '\U{FEFF}'
  }

  /** `/^[^\s]{4,100}$/.test(name)`: 4 to 100 characters, none of them whitespace. */
  predicate ValidUserName(name: string) {
    4 <= |name| <= 100 && forall i :: 0 <= i < |name| ==> !IsWhitespace(name[i])
  }

  /** The length bounds of the user-name pattern, for names of repeated
      letters, and a name with a space refused whatever its length. */
  lemma UserNameExamples(n: nat)
    ensures ValidUserName(seq(n, _ => 'a')) <==> 4 <= n <= 100
    ensures !ValidUserName("ann smith")
  {
    var name := seq(n, _ => 'a');
    assert forall i :: 0 <= i < |name| ==> name[i] == 'a';
    assert "ann smith"[3] == ' ';
  }

  /** The class `[a-zA-Z0-9_\.-]` of the e-mail pattern. */
  predicate IsEmailChar(c: char) {
    IsLetter(c) || ('0' <= c <= '9') || c == '_' || c == '.' || c == '-'
  }

  /** The class `[a-zA-Z]`. */
  predicate IsLetter(c: char) {
    ('a' <= c <= 'z') || ('A' <= c <= 'Z')
  }

  /** `/^([a-zA-Z0-9_\.-]+)@([a-zA-Z0-9_\.-]+)\.([a-zA-Z]{2,6})$/.test(email)`:
      the address splits at some `@` (index `at`) and some later `.` (index `dot`)
      into a non-empty local part, a non-empty domain and a top-level domain of
      two to six letters. */
  predicate ValidEmail(email: string) {
    exists at, dot | 0 < at && at + 1 < dot < |email| :: EmailSplit(email, at, dot)
  }

  /** The three groups of the e-mail pattern, for a given `@` and last `.`. */
  predicate EmailSplit(email: string, at: int, dot: int)
    requires 0 < at && at + 1 < dot < |email|
  {
    && email[at] == '@' && email[dot] == '.'
    && (forall i :: 0 <= i < at ==> IsEmailChar(email[i]))
    && (forall i :: at < i < dot ==> IsEmailChar(email[i]))
    && 2 <= |email| - dot - 1 <= 6
    && (forall i :: dot < i < |email| ==> IsLetter(email[i]))
  }

  /** A valid address holds exactly one `@`: the local part and the domain
      cannot contain one, so the split point of the pattern is unique. */
  lemma ValidEmailHasOneAt(email: string, k: int)
    requires ValidEmail(email)
    requires 0 <= k < |email| && email[k] == '@'
    ensures forall j :: 0 <= j < |email| && email[j] == '@' ==> j == k
  {
    var at, dot :| 0 < at && at + 1 < dot < |email| && EmailSplit(email, at, dot);
    forall j | 0 <= j < |email| && email[j] == '@' ensures j == at {
      assert !IsEmailChar(email[j]) && !IsLetter(email[j]);
    }
  }

  /** Two sample addresses: the pattern accepts a plain address and refuses one
      without a top-level domain. */
  lemma EmailExamples()
    ensures ValidEmail("ann@mail.com")
    ensures !ValidEmail("ann@mail")
  {
    var e := "ann@mail.com";
    assert e[3] == '@' && e[8] == '.';
    assert EmailSplit(e, 3, 8) by {
    assert forall i :: 0 <= i < 3 ==> IsEmailChar(e[i]);
    assert forall i :: 3 < i < 8 ==> IsEmailChar(e[i]);
    assert forall i :: 8 < i < |e| ==> IsLetter(e[i]);
    }
    var f := "ann@mail";
    assert forall i :: 0 <= i < |f| ==> f[i] != '.';
  }
}
