/**
 What `main` decides before it connects: refuse an empty target URL, parse
 the origin only when one is given and refuse it when it does not parse,
 then build the header from the `-H` values and dial. URL parsing and header
 name canonicalisation belong to Go's libraries and are parameters here.
 */
module Startup {
  import opened Base
  import opened HeaderFlag
  import opened Header

  /** The `-u` default. */
  const DefaultTarget: string := "ws://localhost:8080/api/v1/kubeql"
  /** The `-o` default. */
  const DefaultOrigin: string := "http://localhost:8080"

  /** The two configuration errors `main` reports before connecting. */
  datatype ConfigError = MissingUrl | BadOrigin(origin: string)

  /** How start-up ends: refused, aborted by the `makeHeader` panic, or dialling. */
  datatype Launch =
    | Refused(error: ConfigError)
    | Panicked(panic: HeaderError)
    | Dial(target: string, header: HeaderMap, origin: Option<string>)

  /**
   The target and origin checks. `parses` stands for `url.Parse` succeeding;
   the accepted origin is carried as its text, and no origin at all when the
   flag is empty.
   */
  function Validate(target: string, origin: string, parses: string -> bool): (r: Result<Option<string>, ConfigError>)
    ensures r == Err(MissingUrl) <==> target == ""
    ensures r == Err(BadOrigin(origin)) <==> target != "" && origin != "" && !parses(origin)
    ensures r.Err? ==> r == Err(MissingUrl) || r == Err(BadOrigin(origin))
    ensures r.Ok? ==> r.value == if origin == "" then None else Some(origin)
  {
    if target == "" then Err(MissingUrl)
    else if origin != "" && !parses(origin) then Err(BadOrigin(origin))
    else Ok(if origin == "" then None else Some(origin))
  }

  /** An empty origin is never handed to the parser: any parser gives the same outcome. */
  lemma EmptyOriginNeverParsed(target: string, parses: string -> bool, parses': string -> bool)
    ensures Validate(target, "", parses) == Validate(target, "", parses')
    ensures target != "" ==> Validate(target, "", parses) == Ok(None)
  {
  }

  /**
   Start-up as a whole: the configuration checks come first, so an empty
   target or a bad origin stops the program before any `-H` value is looked
   at; the header is built only once they pass.
   */
  function Start(target: string, origin: string, h: Headers, parses: string -> bool, canon: string -> string): (r: Launch)
    ensures target == "" ==> r == Refused(MissingUrl)
    ensures r.Refused? <==> target == "" || (origin != "" && !parses(origin))
    ensures r.Refused? ==> Validate(target, origin, parses) == Err(r.error)
    ensures r.Dial? <==> && target != ""
                         && (origin == "" || parses(origin))
                         && forall i | 0 <= i < |h.entries| :: ':' in h.entries[i]
    ensures r.Panicked? ==> && r.panic.index < |h.entries|
                            && r.panic.entry == h.entries[r.panic.index]
                            && ':' !in r.panic.entry
    ensures r.Dial? ==> r.target == target && r.origin == (if origin == "" then None else Some(origin))
    ensures r.Dial? ==> MakeHeader(h).Ok? && r.header == ToMap(MakeHeader(h).value, canon)
    ensures r.Panicked? ==> MakeHeader(h) == Err(r.panic)
  {
    MakeHeaderNeedsColons(h);
    match Validate(target, origin, parses)
    case Err(e) => Refused(e)
    case Ok(o) =>
      match MakeHeader(h)
      case Err(p) => Panicked(p)
      case Ok(fields) => Dial(target, ToMap(fields, canon), o)
  }

  /**
   The exit status when start-up does not reach the connection: 1 for the
   configuration errors and 2, the Go runtime's status for an unrecovered
   panic, for the `makeHeader` index error.
   */
  function ExitCode(l: Launch): (code: Option<int>)
    ensures code.None? <==> l.Dial?
    ensures l.Refused? ==> code == Some(1)
    ensures l.Panicked? ==> code == Some(2)
  {
    match l
    case Refused(_) => Some(1)
    case Panicked(_) => Some(2)
    case Dial(_, _, _) => None
  }

  /** With the default flags and no `-H`, start-up dials exactly when the default origin parses. */
  lemma DefaultsDial(parses: string -> bool, canon: string -> string)
    ensures Start(DefaultTarget, DefaultOrigin, Headers([]), parses, canon).Dial? <==> parses(DefaultOrigin)
  {
  }
}
