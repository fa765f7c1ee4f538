/** Rendered text: decimal numbers, delimited fields, and what a digest of a text gives away. */
module Text {
  function Digit(d: nat): char
    requires d < 10
  {
    "0123456789"[d]
  }

  /** `format!("{}", n)` */
  function Decimal(n: nat): (s: string)
    ensures forall c :: c in s ==> '0' <= c <= '9'
  {
    if n < 10 then [Digit(n)] else Decimal(n / 10) + [Digit(n % 10)]
  }

  function ValueOf(s: string): int {
    if s == [] then 0 else 10 * ValueOf(s[..|s| - 1]) + (s[|s| - 1] as int - '0' as int)
  }

  lemma {:induction false} DecimalReadsBack(n: nat)
    ensures ValueOf(Decimal(n)) == n
  {
    if n < 10 {
      assert Decimal(n)[..0] == "";
    } else {
      DecimalReadsBack(n / 10);
      assert Decimal(n)[..|Decimal(n)| - 1] == Decimal(n / 10);
    }
  }

  lemma DecimalInjective(n: nat, m: nat)
    requires Decimal(n) == Decimal(m)
    ensures n == m
  {
    DecimalReadsBack(n);
    DecimalReadsBack(m);
  }

  /** A field that ends at the first delimiter can be read back from the text. */
  lemma FieldReadsBack(f: string, f': string, delimiter: char, rest: string, rest': string)
    requires f + [delimiter] + rest == f' + [delimiter] + rest'
    requires delimiter !in f && delimiter !in f'
    ensures f == f' && rest == rest'
  {
    var t := f + [delimiter] + rest;
    assert t[|f|] == delimiter && t[|f'|] == delimiter;
    assert forall i :: 0 <= i < |f| ==> t[i] == f[i];
    assert forall i :: 0 <= i < |f'| ==> t[i] == f'[i];
    assert |f| == |f'|;
    assert f == t[..|f|] == f';
    assert rest == t[|f| + 1..] == rest';
  }

  lemma NumberReadsBack(n: nat, n': nat, delimiter: char, rest: string, rest': string)
    requires !('0' <= delimiter <= '9')
    requires Decimal(n) + [delimiter] + rest == Decimal(n') + [delimiter] + rest'
    ensures n == n' && rest == rest'
  {
    FieldReadsBack(Decimal(n), Decimal(n'), delimiter, rest, rest');
    DecimalInjective(n, n');
  }

  // ---- Fields between bars ----

  function Barred(fields: seq<string>): string
    requires fields != []
  {
    if |fields| == 1 then fields[0] else fields[0] + ['|'] + Barred(fields[1..])
  }

  lemma SameRest(p: string, p': string, rest: string)
    requires p + rest == p' + rest
    ensures p == p'
  {
    assert p == (p + rest)[..|p|] && p' == (p' + rest)[..|p'|];
  }

  lemma SameStart(p: string, rest: string, rest': string)
    requires p + rest == p + rest'
    ensures rest == rest'
  {
    assert rest == (p + rest)[|p|..] && rest' == (p + rest')[|p|..];
  }

  lemma SameEnds(p: string, s: string, p': string, s': string)
    requires p + s == p' + s' && |s| == |s'|
    ensures s == s' && p == p'
  {
    assert s == (p + s)[|p|..] && s' == (p' + s')[|p'|..];
    SameRest(p, p', s);
  }

  lemma SameBefore(f: string, f': string, delimiter: char, rest: string)
    requires f + [delimiter] + rest == f' + [delimiter] + rest
    ensures f == f'
  {
    assert f + [delimiter] + rest == f + ([delimiter] + rest) && f' + [delimiter] + rest == f' + ([delimiter] + rest);
    SameRest(f, f', [delimiter] + rest);
  }

  /** Changing one field changes the text, whatever the fields hold. */
  lemma {:induction false} OneFieldShows(fields: seq<string>, i: nat, x: string)
    requires i < |fields| && Barred(fields[i := x]) == Barred(fields)
    ensures x == fields[i]
    decreases |fields|
  {
    if |fields| > 1 {
      var rest := fields[1..];
      if i == 0 {
        assert fields[0 := x][1..] == rest;
        SameBefore(x, fields[0], '|', Barred(rest));
      } else {
        assert fields[i := x][1..] == rest[i - 1 := x];
        SameStart(fields[0] + ['|'], Barred(rest[i - 1 := x]), Barred(rest));
        OneFieldShows(rest, i - 1, x);
      }
    }
  }

  lemma FirstAndRest<T>(s: seq<T>, k: nat)
    requires 1 <= k <= |s|
    ensures s[..k] == [s[0]] + s[1..][..k - 1] && s[1..][k - 1..] == s[k..]
  {
  }

  /** Leading fields without a bar can be read back. */
  lemma {:induction false} LeadingFieldsReadBack(fields: seq<string>, fields': seq<string>, k: nat)
    requires k < |fields| == |fields'| && Barred(fields) == Barred(fields')
    requires forall i :: 0 <= i < k ==> '|' !in fields[i] && '|' !in fields'[i]
    ensures fields[..k] == fields'[..k] && Barred(fields[k..]) == Barred(fields'[k..])
    decreases k
  {
    if k == 0 {
      assert fields[0..] == fields && fields'[0..] == fields';
    } else {
      var rest, rest' := fields[1..], fields'[1..];
      FieldReadsBack(fields[0], fields'[0], '|', Barred(rest), Barred(rest'));
      LeadingFieldsReadBack(rest, rest', k - 1);
      FirstAndRest(fields, k);
      FirstAndRest(fields', k);
    }
  }

  /** The text ends in its last field. */
  lemma {:induction false} EndsInLast(fields: seq<string>) returns (p: string)
    requires fields != []
    ensures Barred(fields) == p + fields[|fields| - 1]
    decreases |fields|
  {
    p := [];
    if |fields| > 1 {
      var q := EndsInLast(fields[1..]);
      p := fields[0] + ['|'] + q;
      assert fields[0] + ['|'] + (q + fields[|fields| - 1]) == p + fields[|fields| - 1];
    }
  }

  lemma LastFieldReadsBack(fields: seq<string>, fields': seq<string>)
    requires fields != [] && fields' != [] && Barred(fields) == Barred(fields')
    requires |fields[|fields| - 1]| == |fields'[|fields'| - 1]|
    ensures fields[|fields| - 1] == fields'[|fields'| - 1]
  {
    var p := EndsInLast(fields);
    var p' := EndsInLast(fields');
    SameEnds(p, fields[|fields| - 1], p', fields'[|fields'| - 1]);
  }

  // ---- Digests ----

  /** The digest tells the given texts apart. BLAKE3 is only claimed to be collision-free in this sense: no
      function from texts to 64 characters separates all texts. */
  ghost predicate CollisionFreeOn(digest: string -> string, texts: set<string>) {
    forall t, t' :: t in texts && t' in texts && digest(t) == digest(t') ==> t == t'
  }

  /** `to_hex`: 64 lower-case hexadecimal digits. */
  ghost predicate HexDigests(digest: string -> string) {
    forall t :: IsHex(digest(t))
  }

  ghost predicate IsHex(s: string) {
    |s| == 64 && forall c :: c in s ==> '0' <= c <= '9' || 'a' <= c <= 'f'
  }
}
