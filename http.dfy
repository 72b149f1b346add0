/**
 * The request data the views read: Django's `QueryDict` (`request.GET`,
 * `request.POST`), a key mapped to the list of values submitted for it, and
 * Python's truthiness of the optional strings it hands out.
 */
module Http {
  import opened Wrappers
  import opened PyStr

  type QueryDict = map<string, seq<string>>

  /** `d.get(key)`: the last value submitted for `key`, `None` when there is none. */
  function Get(d: QueryDict, key: string): (r: Option<string>)
    ensures r.Some? <==> key in d && d[key] != []
    ensures r.Some? ==> r.value == d[key][|d[key]| - 1]
  {
    if key in d && d[key] != [] then Some(d[key][|d[key]| - 1]) else None
  }

  /** `d.getlist(key)`: every value submitted for `key`, in order. */
  function GetList(d: QueryDict, key: string): seq<string> {
    if key in d then d[key] else []
  }

  /** Python's `if v:` for an optional string: present and non-empty. */
  predicate Truthy(v: Option<string>) {
    v.Some? && v.value != ""
  }

  /** Python's `a or b`. */
  function Or(a: Option<string>, b: Option<string>): Option<string> {
    if Truthy(a) then a else b
  }

  /** Every text of the list is an integer. */
  predicate AllInts(xs: seq<string>) {
    forall i :: 0 <= i < |xs| ==> ParseInt(xs[i]).Some?
  }

  /** The conversion an `id__in=xs` lookup applies to its list: `int(x)` for every text, and a
      `ValueError` (here `None`) when one of them is not an integer. */
  function ParseIds(xs: seq<string>): (r: Option<seq<int>>)
    ensures r.Some? <==> AllInts(xs)
    ensures r.Some? ==> |r.value| == |xs|
    ensures r.Some? ==> forall i :: 0 <= i < |xs| ==> r.value[i] == ParseInt(xs[i]).value
  {
    if AllInts(xs) then Some(seq(|xs|, i requires 0 <= i < |xs| && AllInts(xs) => ParseInt(xs[i]).value))
    else None
  }

  function ToSet(xs: seq<int>): (r: set<int>)
    ensures forall x :: x in r <==> x in xs
  {
    set x | x in xs
  }
}
