/** The back end's error kinds: four variants that each carry a message, their
    rendering with a fixed prefix per kind, and the conversions from the
    library errors they wrap. */
module NearErrors {

  datatype NearError =
    | ConfigError(msg: string)
    | ContractError(msg: string)
    | NetworkError(msg: string)
    | ParseError(msg: string)

  /** The library errors that convert into a `NearError`, each given by the
      text of its own `Display` (its `to_string()`). */
  datatype ForeignError =
    | IoError(text: string)
    | TomlError(text: string)
    | JsonRpcError(text: string)
    | SerdeJsonError(text: string)

  /** The prefix `Display` writes before the message of each kind. */
  function Prefix(e: NearError): string {
    match e
    case ConfigError(_) => "Configuration error: "
    case ContractError(_) => "Contract error: "
    case NetworkError(_) => "Network error: "
    case ParseError(_) => "Parse error: "
  }

  /** `Display::fmt`: the kind's prefix, then the message. */
  function Display(e: NearError): (s: string)
    ensures |Prefix(e)| <= |s| && s[..|Prefix(e)|] == Prefix(e) && s[|Prefix(e)|..] == e.msg
  {
    Prefix(e) + e.msg
  }

  /** The four `From` impls: file and TOML errors are configuration errors,
      JSON-RPC errors network errors, JSON errors parse errors. */
  function FromForeign(err: ForeignError): (e: NearError)
    ensures e.msg == err.text
    ensures e.ConfigError? <==> err.IoError? || err.TomlError?
    ensures e.NetworkError? <==> err.JsonRpcError?
    ensures e.ParseError? <==> err.SerdeJsonError?
    ensures !e.ContractError?
  {
    match err
    case IoError(text) => ConfigError(text)
    case TomlError(text) => ConfigError(text)
    case JsonRpcError(text) => NetworkError(text)
    case SerdeJsonError(text) => ParseError(text)
  }

  /** Whether two errors are of the same kind. */
  predicate SameKind(a: NearError, b: NearError) {
    || (a.ConfigError? && b.ConfigError?)
    || (a.ContractError? && b.ContractError?)
    || (a.NetworkError? && b.NetworkError?)
    || (a.ParseError? && b.ParseError?)
  }

  /** Of two different kinds, neither prefix starts the other: they differ
      within the shorter one. */
  lemma PrefixesDiffer(a: NearError, b: NearError)
    requires !SameKind(a, b)
    ensures exists i :: 0 <= i < |Prefix(a)| && i < |Prefix(b)| && Prefix(a)[i] != Prefix(b)[i]
  {
    var pa, pb := Prefix(a), Prefix(b);
    if pa[0] == pb[0] {
      assert pa[3] != pb[3];
    }
  }

  /** Errors of different kinds never render alike. */
  lemma DisplayDistinguishesKinds(a: NearError, b: NearError)
    requires !SameKind(a, b)
    ensures Display(a) != Display(b)
  {
    PrefixesDiffer(a, b);
    var i :| 0 <= i < |Prefix(a)| && i < |Prefix(b)| && Prefix(a)[i] != Prefix(b)[i];
    assert Display(a)[i] == Prefix(a)[i] && Display(b)[i] == Prefix(b)[i];
  }

  /** The rendering loses nothing: two errors render alike exactly when they
      are the same kind with the same message. */
  lemma DisplayInjective(a: NearError, b: NearError)
    ensures Display(a) == Display(b) <==> a == b
  {
    if !SameKind(a, b) {
      DisplayDistinguishesKinds(a, b);
    } else if Display(a) == Display(b) {
      assert Prefix(a) == Prefix(b);
      assert a.msg == Display(a)[|Prefix(a)|..] == Display(b)[|Prefix(b)|..] == b.msg;
    }
  }

  /** A converted error renders as its kind's prefix followed by the library
      error's own text. */
  lemma DisplayFromForeign(err: ForeignError)
    ensures Display(FromForeign(err)) ==
      (match err
       case IoError(t) => "Configuration error: " + t
       case TomlError(t) => "Configuration error: " + t
       case JsonRpcError(t) => "Network error: " + t
       case SerdeJsonError(t) => "Parse error: " + t)
  {
  }
}
