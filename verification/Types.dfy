/** Values shared by every module: bytes, identifiers, results and error kinds. */
module Types {
  type byte = x: int | 0 <= x < 256
  type bytes = seq<byte>

  /** A 128-bit identifier, kept abstract as a natural number. */
  type Uuid = nat

  datatype Option<+T> = None | Some(value: T)

  datatype Result<+T> = Ok(value: T) | Err(error: AppError)

  /** The error kinds of `AppError`; the message texts are dropped. */
  datatype AppError =
    | Validation | NotFound | Conflict | Storage | Database | Io | Crypto | Denied | ShutdownInProgress | Internal

  datatype UserRole = Admin | User

  datatype TeamRole = Member | Leader

  datatype ShareRole = Read | Write | VaultAdmin

  ghost predicate Distinct<T>(s: seq<T>) {
    forall i, j :: 0 <= i < j < |s| ==> s[i] != s[j]
  }
}

/** The part of `str` handling the services rely on: trimming of white space. */
module Text {
  /** The Unicode White_Space property, which `char::is_whitespace` tests. */
  predicate IsWhitespace(c: char) {
    '\t' <= c <= '\r' || c == ' ' || c == '\U{85}' || c == '\U{a0}' || c == '\U{1680}' ||
    '\U{2000}' <= c <= '\U{200a}' || c == '\U{2028}' || c == '\U{2029}' || c == '\U{202f}' ||
    c == '\U{205f}' || c == '\U{3000}'
  }

  predicate IsBlank(s: string) {
    forall i :: 0 <= i < |s| ==> IsWhitespace(s[i])
  }

  function TrimStart(s: string): (t: string)
    ensures t == [] || !IsWhitespace(t[0])
    ensures t == [] <==> IsBlank(s)
  {
    if s == [] then []
    else if IsWhitespace(s[0]) then
      var t := TrimStart(s[1..]);
      assert s == [s[0]] + s[1..];
      t
    else s
  }

  function TrimEnd(s: string): (t: string)
    ensures t <= s
    ensures t == [] || !IsWhitespace(t[|t| - 1])
    ensures t == [] <==> IsBlank(s)
  {
    if s == [] then []
    else if IsWhitespace(s[|s| - 1]) then
      var t := TrimEnd(s[..|s| - 1]);
      assert s == s[..|s| - 1] + [s[|s| - 1]];
      t
    else s
  }

  function Trim(s: string): (t: string)
    ensures t == [] <==> IsBlank(s)
    ensures t == [] || (!IsWhitespace(t[0]) && !IsWhitespace(t[|t| - 1]))
  {
    TrimEnd(TrimStart(s))
  }

  /** Text that neither starts nor ends with white space is its own trimming. */
  lemma TrimKeeps(s: string)
    requires s == [] || (!IsWhitespace(s[0]) && !IsWhitespace(s[|s| - 1]))
    ensures Trim(s) == s
  {
  }
}
