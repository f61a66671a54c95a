/** The optional value used wherever the source has `None`, `NaN` or a failed lookup. */
module Wrappers {

  datatype Option<T> = None | Some(value: T)

  /** Python's `x or ""` / pandas' `fillna('')` on a string-or-missing value. */
  function OrEmpty(o: Option<string>): (r: string)
    ensures o.None? ==> r == ""
    ensures o.Some? ==> r == o.value
  {
    match o
    case None => ""
    case Some(s) => s
  }

  /** Python's `s or None`: the empty string is falsy and becomes `None`. */
  function NoneIfEmpty(s: string): (r: Option<string>)
    ensures r.None? <==> s == ""
    ensures r.Some? ==> r.value == s
  {
    if s == "" then None else Some(s)
  }
}
