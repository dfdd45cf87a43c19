/**
  The form handling the routes do before touching the store: the
  missing-field check of login and signup, and Python's `str.strip` applied
  to the friend list of the profile form.
 */
module Forms {

  /** A posted form: the first value of each submitted field. */
  type Form = map<string, string>

  /** `request.form.get(field, None)` is `None` or `''`. */
  predicate Absent(form: Form, field: string)
  {
    field !in form || form[field] == ""
  }

  /** The loop collecting `missing` / `faltan`: the absent fields, in the declared order. */
  function MissingFields(form: Form, fields: seq<string>): (r: seq<string>)
    ensures forall f :: f in r <==> f in fields && Absent(form, f)
    ensures |r| <= |fields|
    decreases |fields|
  {
    if fields == [] then []
    else
      var last := fields[|fields| - 1];
      assert fields == fields[..|fields| - 1] + [last];
      MissingFields(form, fields[..|fields| - 1]) + (if Absent(form, last) then [last] else [])
  }

  /** The check keeps the declared order: checking `a + b` reports `a`'s missing fields first. */
  lemma {:induction false} MissingFieldsAppend(form: Form, a: seq<string>, b: seq<string>)
    ensures MissingFields(form, a + b) == MissingFields(form, a) + MissingFields(form, b)
    decreases |b|
  {
    if b == [] {
      assert a + b == a;
    } else {
      var last := b[|b| - 1];
      var front := b[..|b| - 1];
      assert (a + b)[..|a + b| - 1] == a + front;
      assert (a + b)[|a + b| - 1] == last;
      MissingFieldsAppend(form, a, front);
    }
  }

  /** The characters Python's `str.isspace` accepts (Unicode whitespace). */
  predicate IsSpace(c: char)
  {
    var n := c as int;
    n == 0x20 || 0x09 <= n <= 0x0D || 0x1C <= n <= 0x1F || n == 0x85 || n == 0xA0 ||
    n == 0x1680 || 0x2000 <= n <= 0x200A || n == 0x2028 || n == 0x2029 ||
    n == 0x202F || n == 0x205F || n == 0x3000
  }

  /** Drops the leading whitespace. */
  function StripStart(s: string): (r: string)
    ensures |r| <= |s| && r == s[|s| - |r|..]
    ensures forall i :: 0 <= i < |s| - |r| ==> IsSpace(s[i])
    ensures r == [] || !IsSpace(r[0])
    decreases |s|
  {
    if s != [] && IsSpace(s[0]) then StripStart(s[1..]) else s
  }

  /** Drops the trailing whitespace. */
  function StripEnd(s: string): (r: string)
    ensures |r| <= |s| && r == s[..|r|]
    ensures forall i :: |r| <= i < |s| ==> IsSpace(s[i])
    ensures r == [] || !IsSpace(r[|r| - 1])
    decreases |s|
  {
    if s != [] && IsSpace(s[|s| - 1]) then StripEnd(s[..|s| - 1]) else s
  }

  /**
    `str.strip()`: the slice of `s` left after dropping whitespace at both
    ends; what is dropped is all whitespace and what is kept neither starts
    nor ends with whitespace.
   */
  function Strip(s: string): (r: string)
    ensures exists i, j ::
              && 0 <= i <= j <= |s| && r == s[i..j]
              && (forall k :: 0 <= k < i ==> IsSpace(s[k]))
              && (forall k :: j <= k < |s| ==> IsSpace(s[k]))
    ensures r == [] || (!IsSpace(r[0]) && !IsSpace(r[|r| - 1]))
  {
    var t := StripStart(s);
    var r := StripEnd(t);
    var i := |s| - |t|;
    assert r == s[i..i + |r|];
    r
  }

  /** Stripping twice is stripping once. */
  lemma StripIdempotent(s: string)
    ensures Strip(Strip(s)) == Strip(s)
  {
    var r := Strip(s);
    if r != [] {
      assert !IsSpace(r[0]);
      assert StripStart(r) == r;
      assert StripEnd(r) == r;
    }
  }

  /** The comprehension `[str.strip(str(friend)) for friend in ...]`. */
  function StripAll(xs: seq<string>): (r: seq<string>)
    ensures |r| == |xs|
    ensures forall i :: 0 <= i < |r| ==> r[i] == Strip(xs[i])
  {
    seq(|xs|, i requires 0 <= i < |xs| => Strip(xs[i]))
  }
}
