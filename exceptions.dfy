/**
 * The API errors of modules/api/v1/exceptions.py. Each error class carries a
 * status code and a class-level `default_detail` dict; constructing an error
 * makes `detail` that very dict and writes the optional message and code into
 * it in place.
 */
module Exceptions {
  import opened Wrappers

  /** The four subclasses of DetailedAPIException. */
  datatype ErrorKind = BadRequest | Conflict | Forbidden | NotFound

  /** DetailedAPIException.ERROR. */
  const ERROR: string := "error"

  const STATUS_KEY: string := "status"
  const DETAILS_KEY: string := "details"
  const CODE_KEY: string := "code"

  /** The keys a detail dict may hold. */
  const DETAIL_KEYS: set<string> := {STATUS_KEY, DETAILS_KEY, CODE_KEY}

  /** The `status_code` class attribute of each error class. */
  function StatusCode(k: ErrorKind): (r: int)
    ensures 400 <= r < 500
  {
    match k
    case BadRequest => 400
    case Conflict => 409
    case Forbidden => 403
    case NotFound => 404
  }

  /** The error class an HTTP status belongs to, if any. */
  function KindOfStatus(status: int): (r: Option<ErrorKind>)
    ensures r.Some? ==> StatusCode(r.value) == status
    ensures r.None? ==> forall k :: StatusCode(k) != status
  {
    if status == 400 then Some(BadRequest)
    else if status == 409 then Some(Conflict)
    else if status == 403 then Some(Forbidden)
    else if status == 404 then Some(NotFound)
    else None
  }

  /** Distinct error classes answer with distinct status codes, all of them 4xx. */
  lemma StatusCodesDistinct(k: ErrorKind, k': ErrorKind)
    ensures 400 <= StatusCode(k) < 500
    ensures StatusCode(k) == StatusCode(k') <==> k == k'
    ensures KindOfStatus(StatusCode(k)) == Some(k)
  {
  }

  /** The `details` text of each class's `default_detail`. */
  function DefaultMessage(k: ErrorKind): string
  {
    match k
    case BadRequest => "Bad request"
    case Conflict => "Conflict request"
    case Forbidden => "API key not provided or incorrect"
    case NotFound => "Not found"
  }

  /** The contents of each class's `default_detail` dict as declared. */
  function DefaultDetail(k: ErrorKind): (d: map<string, string>)
    ensures d.Keys == {STATUS_KEY, DETAILS_KEY}
    ensures d[STATUS_KEY] == ERROR && d[DETAILS_KEY] == DefaultMessage(k)
  {
    map[STATUS_KEY := ERROR, DETAILS_KEY := DefaultMessage(k)]
  }

  /** Python truthiness of an optional string argument: present and non-empty. */
  predicate Truthy(s: Option<string>)
  {
    s.Some? && s.value != ""
  }

  /** The shape every detail dict keeps: only the three keys, an error status, a message. */
  ghost predicate WellFormedDetail(d: map<string, string>)
  {
    d.Keys <= DETAIL_KEYS && STATUS_KEY in d && d[STATUS_KEY] == ERROR && DETAILS_KEY in d
  }

  /**
   * The dict after `__init__(details, code)` has written into it: `details` is
   * overwritten only by a truthy message, a `code` key is set only by a truthy
   * code, and every other entry is left as it was.
   */
  function Initialized(d: map<string, string>, details: Option<string>, code: Option<string>)
    : (r: map<string, string>)
    ensures r.Keys == d.Keys + (if Truthy(details) then {DETAILS_KEY} else {})
                             + (if Truthy(code) then {CODE_KEY} else {})
    ensures Truthy(details) ==> r[DETAILS_KEY] == details.value
    ensures Truthy(code) ==> r[CODE_KEY] == code.value
    ensures forall key :: key in d && key != DETAILS_KEY && key != CODE_KEY ==> r[key] == d[key]
    ensures !Truthy(details) && DETAILS_KEY in d ==> r[DETAILS_KEY] == d[DETAILS_KEY]
    ensures !Truthy(code) && CODE_KEY in d ==> r[CODE_KEY] == d[CODE_KEY]
    ensures WellFormedDetail(d) ==> WellFormedDetail(r)
  {
    var withDetails := if Truthy(details) then d[DETAILS_KEY := details.value] else d;
    if Truthy(code) then withDetails[CODE_KEY := code.value] else withDetails
  }

  /** A Python dict object; its identity matters because the error classes share theirs. */
  class DetailDict {
    var entries: map<string, string>

    constructor (entries: map<string, string>)
      ensures this.entries == entries
    {
      this.entries := entries;
    }
  }

  /** One error class, with its class attributes `status_code` and `default_detail`. */
  class ErrorClass {
    const kind: ErrorKind
    const defaultDetail: DetailDict

    constructor (kind: ErrorKind)
      ensures this.kind == kind
      ensures fresh(defaultDetail) && defaultDetail.entries == DefaultDetail(kind)
    {
      this.kind := kind;
      this.defaultDetail := new DetailDict(DefaultDetail(kind));
    }
  }

  /**
   * An instance of DetailedAPIException as written: `detail` IS the class's
   * `default_detail` dict, and the message and code are written into that dict.
   */
  class DetailedAPIException {
    const errorClass: ErrorClass
    const detail: DetailDict

    constructor (errorClass: ErrorClass, details: Option<string>, code: Option<string>)
      modifies errorClass.defaultDetail
      ensures this.errorClass == errorClass
      ensures detail == errorClass.defaultDetail
      ensures detail.entries == Initialized(old(errorClass.defaultDetail.entries), details, code)
    {
      this.errorClass := errorClass;
      this.detail := errorClass.defaultDetail;
      new;
      if Truthy(details) {
        detail.entries := detail.entries[DETAILS_KEY := details.value];
      }
      if Truthy(code) {
        detail.entries := detail.entries[CODE_KEY := code.value];
      }
    }

    /**
     * `status_code` seen through the instance. No handler of this model reads
     * it; `StatusCode` is what the lemmas about responses use.
     */
    function HttpStatus(): int
      reads this, errorClass
    {
      StatusCode(errorClass.kind)
    }
  }

  /**
   * Two errors of one class raised in a row, the first with a message and the
   * second without: both share one dict, and the second reports the first's
   * message instead of the class default.
   */
  method RaiseTwice(cls: ErrorClass, message: string)
    returns (first: DetailedAPIException, second: DetailedAPIException)
    requires message != "" && message != DefaultMessage(cls.kind)
    requires cls.defaultDetail.entries == DefaultDetail(cls.kind)
    modifies cls.defaultDetail
    ensures first.detail == second.detail == cls.defaultDetail
    ensures WellFormedDetail(second.detail.entries)
    ensures second.detail.entries[DETAILS_KEY] == message
    ensures second.detail.entries[DETAILS_KEY] != DefaultMessage(cls.kind)
  {
    first := new DetailedAPIException(cls, Some(message), None);
    second := new DetailedAPIException(cls, None, None);
  }

  /**
   * The same leak stated on dict values: once a message has been written into
   * the shared dict, a later error raised without one reports that message.
   */
  lemma SharedDetailLeaks(k: ErrorKind, message: string, code: string)
    requires message != "" && code != ""
    ensures var afterFirst := Initialized(DefaultDetail(k), Some(message), Some(code));
            var afterSecond := Initialized(afterFirst, None, None);
            afterSecond[DETAILS_KEY] == message && afterSecond[CODE_KEY] == code
  {
  }

  /**
   * The detail an error evidently should carry: a fresh copy of the class
   * default with this error's own message and code and nothing left over from
   * earlier errors.
   */
  function FreshDetail(k: ErrorKind, details: Option<string>, code: Option<string>)
    : (r: map<string, string>)
    ensures WellFormedDetail(r)
    ensures r[DETAILS_KEY] == if Truthy(details) then details.value else DefaultMessage(k)
    ensures CODE_KEY in r <==> Truthy(code)
    ensures Truthy(code) ==> r[CODE_KEY] == code.value
  {
    Initialized(DefaultDetail(k), details, code)
  }

  /**
   * The corrected error: `detail` is a new dict built from the class default,
   * which itself is never written.
   */
  class CorrectedAPIException {
    const errorClass: ErrorClass
    const detail: DetailDict

    constructor (errorClass: ErrorClass, details: Option<string>, code: Option<string>)
      requires errorClass.defaultDetail.entries == DefaultDetail(errorClass.kind)
      ensures this.errorClass == errorClass && fresh(detail)
      ensures detail.entries == FreshDetail(errorClass.kind, details, code)
      ensures unchanged(errorClass.defaultDetail)
    {
      this.errorClass := errorClass;
      this.detail := new DetailDict(Initialized(errorClass.defaultDetail.entries, details, code));
    }
  }

  /** With the corrected class, an error raised without a message reports the default. */
  method RaiseTwiceCorrected(cls: ErrorClass, message: string)
    returns (first: CorrectedAPIException, second: CorrectedAPIException)
    requires message != ""
    requires cls.defaultDetail.entries == DefaultDetail(cls.kind)
    ensures WellFormedDetail(first.detail.entries) && WellFormedDetail(second.detail.entries)
    ensures first.detail.entries[DETAILS_KEY] == message
    ensures second.detail.entries[DETAILS_KEY] == DefaultMessage(cls.kind)
    ensures CODE_KEY !in second.detail.entries
  {
    first := new CorrectedAPIException(cls, Some(message), None);
    second := new CorrectedAPIException(cls, None, None);
  }
}
