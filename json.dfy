/**
 * The values `json.load` produces, with the Python operations the layout
 * code applies to them (key tests, `== 0`, arithmetic on numbers).
 * A mapping is given by its members in insertion order; the keys of a
 * mapping read from a JSON file are distinct, as in any Python dict.
 */
module JsonData {
  import opened Wrappers

  datatype Json =
    | Null
    | Bool(b: bool)
    | Num(n: real)
    | Str(s: string)
    | Arr(items: seq<Json>)
    | Obj(members: seq<(string, Json)>)

  /** `key in obj` on a mapping. */
  predicate HasKey(members: seq<(string, Json)>, key: string) {
    exists i :: 0 <= i < |members| && members[i].0 == key
  }

  /** `obj[key]`, or None where Python raises a KeyError. */
  function Lookup(members: seq<(string, Json)>, key: string): (r: Option<Json>)
    ensures r.Some? <==> HasKey(members, key)
    ensures r.Some? ==> (key, r.value) in members
  {
    if |members| == 0 then None
    else if members[0].0 == key then Some(members[0].1)
    else
      var rest := Lookup(members[1..], key);
      assert rest.Some? ==> (key, rest.value) in members by {
        if rest.Some? { assert (key, rest.value) in members[1..]; }
      }
      assert HasKey(members[1..], key) ==> HasKey(members, key) by {
        if HasKey(members[1..], key) {
          var i :| 0 <= i < |members[1..]| && members[1..][i].0 == key;
          assert members[i + 1].0 == key;
        }
      }
      assert HasKey(members, key) ==> HasKey(members[1..], key) by {
        if HasKey(members, key) {
          var i :| 0 <= i < |members| && members[i].0 == key;
          assert members[1..][i - 1].0 == key;
        }
      }
      rest
  }

  /** `v[key]` on any value: only a mapping with that key can be indexed by a string. */
  function Get(v: Json, key: string): (r: Option<Json>)
    ensures r.Some? ==> v.Obj? && HasKey(v.members, key)
    ensures v.Obj? && HasKey(v.members, key) ==> r.Some?
  {
    if v.Obj? then Lookup(v.members, key) else None
  }

  /**
   * `v[key]` with a string key: a mapping without the key raises KeyError,
   * and any other value (a string, a list, a number, None) raises TypeError.
   */
  function Index(v: Json, key: string): (r: Result<Json>)
    ensures r.Ok? <==> v.Obj? && HasKey(v.members, key)
    ensures r.Ok? ==> Get(v, key) == Some(r.value)
    ensures !v.Obj? ==> r == Err(TypeError)
    ensures v.Obj? && !HasKey(v.members, key) ==> r == Err(KeyError)
  {
    if !v.Obj? then Err(TypeError)
    else
      match Lookup(v.members, key)
      case Some(x) => Ok(x)
      case None => Err(KeyError)
  }

  /** `key in v` where `v` is a mapping; None where `in` is a type error or means something else. */
  function Has(v: Json, key: string): (r: bool)
    ensures r <==> v.Obj? && HasKey(v.members, key)
  {
    v.Obj? && HasKey(v.members, key)
  }

  /** The number Python arithmetic sees in `v`: bool is an int subclass; None for other types. */
  function Numeric(v: Json): (r: Option<real>)
    ensures r.Some? <==> v.Num? || v.Bool?
    ensures v.Num? ==> r == Some(v.n)
    ensures v.Bool? ==> r == Some(if v.b then 1.0 else 0.0)
  {
    match v
    case Num(n) => Some(n)
    case Bool(b) => Some(if b then 1.0 else 0.0)
    case _ => None
  }

  /** Python `v == 0`: true for 0, 0.0 and False, false for every other value (no error). */
  predicate EqualsZero(v: Json) {
    v == Num(0.0) || v == Bool(false)
  }

  /** `v == 0` holds exactly for the values whose number is 0. */
  lemma EqualsZeroNumeric(v: Json)
    ensures EqualsZero(v) <==> Numeric(v) == Some(0.0)
  {
  }
}
