// Shared vocabulary: optional values, JavaScript truthiness of optional strings, substring search, and the
// text functions the discovery engine treats as vocabulary rather than as algorithm.
module Text {

  datatype Option<+T> = None | Some(value: T)

  /** A nullable string used as a JavaScript condition: null and "" are both false. */
  predicate Truthy(s: Option<string>) {
    s.Some? && s.value != ""
  }

  /** The nullish coalescing operator. */
  function OrElse(s: Option<string>, fallback: Option<string>): Option<string> {
    if s.Some? then s else fallback
  }

  function Min(a: int, b: int): int {
    if a <= b then a else b
  }

  function Max(a: int, b: int): int {
    if a <= b then b else a
  }

  /** `hay` has `needle` as a contiguous part. */
  predicate Contains(hay: string, needle: string) {
    exists i | 0 <= i <= |hay| - |needle| :: OccursAt(hay, needle, i)
  }

  predicate OccursAt(hay: string, needle: string, i: nat)
    requires i + |needle| <= |hay|
  {
    hay[i..i + |needle|] == needle
  }

  /** The position of the first element satisfying `p`, or the length when there is none. */
  function FirstIndex<T>(rows: seq<T>, p: T -> bool): (i: nat)
    ensures i <= |rows|
    ensures i < |rows| ==> p(rows[i])
    ensures forall k | 0 <= k < i :: !p(rows[k])
  {
    FirstIndexFrom(rows, p, 0)
  }

  function FirstIndexFrom<T>(rows: seq<T>, p: T -> bool, start: nat): (i: nat)
    requires start <= |rows|
    ensures start <= i <= |rows|
    ensures i < |rows| ==> p(rows[i])
    ensures forall k | start <= k < i :: !p(rows[k])
    decreases |rows| - start
  {
    if start == |rows| || p(rows[start]) then start else FirstIndexFrom(rows, p, start + 1)
  }

  lemma FirstIndexIs<T>(rows: seq<T>, p: T -> bool, i: nat)
    requires i <= |rows|
    requires i < |rows| ==> p(rows[i])
    requires forall k | 0 <= k < i :: !p(rows[k])
    ensures FirstIndex(rows, p) == i
  {
  }

  lemma {:induction false} FirstIndexFromIs<T>(rows: seq<T>, p: T -> bool, start: nat, i: nat)
    requires start <= i <= |rows|
    requires i < |rows| ==> p(rows[i])
    requires forall k | start <= k < i :: !p(rows[k])
    ensures FirstIndexFrom(rows, p, start) == i
    decreases i - start
  {
    if start < i {
      FirstIndexFromIs(rows, p, start + 1, i);
    }
  }

  lemma FirstIndexExists<T>(rows: seq<T>, p: T -> bool)
    ensures FirstIndex(rows, p) < |rows| <==> exists x | x in rows :: p(x)
  {
    var i := FirstIndex(rows, p);
    if i < |rows| {
      assert rows[i] in rows;
    }
    if x :| x in rows && p(x) {
      var k :| 0 <= k < |rows| && rows[k] == x;
    }
  }

  /**
   The regular-expression and word-list functions, each one a total deterministic function of its argument.
   Every statement of the project holds for every lexicon; a statement that needs a fact about one of these
   functions says so in its precondition.
   */
  datatype Lexicon = Lexicon(
    normalize: string -> string,                    // lower case, no accents, single spaces
    domainOf: string -> Option<string>,             // host of a safe link without "www."
    phoneOf: string -> Option<string>,              // international form of a phone number
    urlOf: string -> Option<string>,                // canonical page address
    entityCore: string -> string,                   // name without organizational words
    hasDistinctiveName: string -> bool,             // some word that is not organizational
    registrableDomain: string -> Option<string>,    // registrable domain of an address
    alnum: string -> string)                        // folded letters and digits only
  {
    /** `normalize` of a nullable string: null counts as "". */
    function Norm(s: Option<string>): string {
      normalize(if s.Some? then s.value else "")
    }

    /** `normalizeDomain`: nothing for a missing or empty website, and never an empty host. */
    function Domain(website: Option<string>): (d: Option<string>)
      ensures d.Some? ==> Truthy(website) && Truthy(d)
    {
      if Truthy(website) && Truthy(domainOf(website.value)) then domainOf(website.value) else None
    }

    /** `normalizePhone`: nothing for a missing, empty or unreadable number. */
    function Phone(phone: Option<string>): (p: Option<string>)
      ensures p.Some? ==> Truthy(phone) && Truthy(p)
    {
      if Truthy(phone) && Truthy(phoneOf(phone.value)) then phoneOf(phone.value) else None
    }

    /**
     Same canonical organization name. The distinctiveness test reads the first name only, so the relation
     is not symmetric.
     */
    predicate SameOrganization(a: string, b: string) {
      && |entityCore(a)| >= 3
      && entityCore(a) == entityCore(b)
      && hasDistinctiveName(a)
    }
  }
}
