/** Minimum, and how concatenations regroup. */
module Sequences {

  function Min(a: nat, b: nat): nat { if a < b then a else b }

  lemma Assoc<T>(a: seq<T>, b: seq<T>, c: seq<T>)
    ensures (a + b) + c == a + (b + c)
  {
  }

  /** A left-leaning concatenation of pieces, read from the right. */
  lemma Assoc7<T>(a: seq<T>, b: seq<T>, c: seq<T>, d: seq<T>, e: seq<T>, f: seq<T>, g: seq<T>, h: seq<T>)
    ensures a + b + c + d + e + f + g + h == a + (b + (c + (d + (e + (f + (g + h))))))
  {
    Assoc(a + b + c + d + e + f, g, h);
    Assoc(a + b + c + d + e, f, g + h);
    Assoc(a + b + c + d, e, f + (g + h));
    Assoc(a + b + c, d, e + (f + (g + h)));
    Assoc(a + b, c, d + (e + (f + (g + h))));
    Assoc(a, b, c + (d + (e + (f + (g + h)))));
  }

  lemma Assoc6<T>(a: seq<T>, b: seq<T>, c: seq<T>, d: seq<T>, e: seq<T>, f: seq<T>, g: seq<T>)
    ensures a + b + c + d + e + f + g == a + (b + (c + (d + (e + (f + g)))))
  {
    Assoc(a + b + c + d + e, f, g);
    Assoc(a + b + c + d, e, f + g);
    Assoc(a + b + c, d, e + (f + g));
    Assoc(a + b, c, d + (e + (f + g)));
    Assoc(a, b, c + (d + (e + (f + g))));
  }

  /** Where the middle of three pieces stands. */
  lemma Middle<T>(a: seq<T>, b: seq<T>, c: seq<T>)
    ensures forall i :: 0 <= i < |b| ==> (a + b + c)[|a| + i] == b[i]
    ensures (a + b + c)[|a|..|a| + |b|] == b
  {
  }

  /** A sequence holds another from position `q` on. */
  ghost predicate StandsAt<T>(s: seq<T>, q: nat, part: seq<T>) {
    q + |part| <= |s| && forall i :: 0 <= i < |part| ==> s[q + i] == part[i]
  }

  lemma StandsHere<T>(head: seq<T>, part: seq<T>, rest: seq<T>)
    ensures StandsAt(head + part + rest, |head|, part)
  {
    Middle(head, part, rest);
  }

  lemma StandsFurther<T>(head: seq<T>, rest: seq<T>, q: nat, part: seq<T>)
    requires StandsAt(rest, q, part)
    ensures StandsAt(head + rest, |head| + q, part)
  {
    forall i | 0 <= i < |part| ensures (head + rest)[|head| + q + i] == part[i] {
      assert (head + rest)[|head| + (q + i)] == rest[q + i];
    }
  }

  lemma Within<T>(s: seq<T>, base: nat, column: seq<T>, q: nat, part: seq<T>)
    requires StandsAt(s, base, column) && StandsAt(column, q, part)
    ensures StandsAt(s, base + q, part)
  {
    forall i | 0 <= i < |part| ensures s[base + q + i] == part[i] {
      assert s[base + (q + i)] == column[q + i];
    }
  }

  lemma StandsSlice<T>(s: seq<T>, q: nat, part: seq<T>)
    requires StandsAt(s, q, part)
    ensures q + |part| <= |s| && s[q..q + |part|] == part
  {
  }
}
