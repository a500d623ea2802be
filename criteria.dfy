/**
 * The fragment of the JPA Criteria API that the specification factories use,
 * with the meaning SQL gives the predicates they build: comparisons and LIKE
 * against NULL are UNKNOWN, AND is three-valued, and a WHERE clause keeps a
 * row only when its predicate is TRUE.
 */
module Criteria {
  import opened Wrappers

  /** A column value: numbers (ids, cents, timestamps, counts) or text. */
  datatype Value = Num(n: int) | Text(s: string)

  /** SQL's three truth values. */
  datatype Truth = True | False | Unknown

  function FromBool(b: bool): Truth {
    if b then True else False
  }

  /** SQL AND: FALSE wins over UNKNOWN, UNKNOWN wins over TRUE. */
  function And3(a: Truth, b: Truth): (r: Truth)
    ensures r == True <==> a == True && b == True
    ensures r == False <==> a == False || b == False
  {
    if a == False || b == False then False
    else if a == True && b == True then True
    else Unknown
  }

  /**
   * A predicate built by a `CriteriaBuilder` call over the column `field`
   * of the queried entity (`F` names the columns of one entity).
   * `LikeLower` is `like(lower(field), pattern)`.
   */
  datatype Pred<F> =
    | Equal(field: F, value: Value)
    | NotEqual(field: F, value: Value)
    | GreaterThan(field: F, bound: int)
    | LessThan(field: F, bound: int)
    | GreaterThanOrEqualTo(field: F, bound: int)
    | LessThanOrEqualTo(field: F, bound: int)
    | Between(field: F, low: int, high: int)
    | LikeLower(field: F, pattern: string)
    | IsNotNull(field: F)
    | And(left: Pred<F>, right: Pred<F>)

  function AsNum(c: Option<Value>): Option<int> {
    if c.Some? && c.value.Num? then Some(c.value.n) else None
  }

  /** Evaluates `p` on the row whose column values are `row(f)` (`None` is SQL NULL). */
  function Eval<F>(p: Pred<F>, row: F -> Option<Value>): Truth {
    match p
    case Equal(f, v) => if row(f).None? then Unknown else FromBool(row(f).value == v)
    case NotEqual(f, v) => if row(f).None? then Unknown else FromBool(row(f).value != v)
    case GreaterThan(f, b) => if AsNum(row(f)).None? then Unknown else FromBool(AsNum(row(f)).value > b)
    case LessThan(f, b) => if AsNum(row(f)).None? then Unknown else FromBool(AsNum(row(f)).value < b)
    case GreaterThanOrEqualTo(f, b) =>
      if AsNum(row(f)).None? then Unknown else FromBool(AsNum(row(f)).value >= b)
    case LessThanOrEqualTo(f, b) =>
      if AsNum(row(f)).None? then Unknown else FromBool(AsNum(row(f)).value <= b)
    case Between(f, lo, hi) =>
      // BETWEEN is inclusive at both ends (ISO/IEC 9075-2, subclause 8.3)
      if AsNum(row(f)).None? then Unknown else FromBool(lo <= AsNum(row(f)).value <= hi)
    case LikeLower(f, pat) =>
      // LOWER(NULL) is NULL and NULL LIKE anything is UNKNOWN (subclause 8.5)
      if row(f).None? || !row(f).value.Text? then Unknown
      else FromBool(Like(LowerString(row(f).value.s), pat))
    case IsNotNull(f) => FromBool(row(f).Some?)
    case And(l, r) => And3(Eval(l, row), Eval(r, row))
  }

  /**
   * Whether a WHERE clause built from a specification keeps the row.
   * A specification that returned `null` (`None`) adds no restriction.
   */
  predicate Admits<F>(spec: Option<Pred<F>>, row: F -> Option<Value>) {
    spec.None? || Eval(spec.value, row) == True
  }

  /** A conjunction keeps exactly the rows both conjuncts keep, NULLs included. */
  lemma AdmitsAnd<F>(l: Pred<F>, r: Pred<F>, row: F -> Option<Value>)
    ensures Admits(Some(And(l, r)), row) <==> Admits(Some(l), row) && Admits(Some(r), row)
  {
  }

  /** The mutable query object a specification receives; only its DISTINCT flag is used. */
  class CriteriaQuery {
    var distinct: bool

    constructor ()
      ensures !distinct
    {
      distinct := false;
    }

    /** `query.distinct(flag)`. */
    method SetDistinct(flag: bool)
      modifies this
      ensures distinct == flag
    {
      distinct := flag;
    }
  }

  // ---------------------------------------------------------------- LOWER

  /** `LOWER` / `String.toLowerCase` on the ASCII letters. */
  function LowerChar(c: char): (d: char)
    ensures 'A' <= c <= 'Z' ==> d as int == c as int + 32
    ensures !('A' <= c <= 'Z') ==> d == c
  {
    if 'A' <= c <= 'Z' then (c as int + 32) as char else c
  }

  function LowerString(s: string): (r: string)
    ensures |r| == |s|
    ensures forall i :: 0 <= i < |s| ==> r[i] == LowerChar(s[i])
  {
    seq(|s|, i requires 0 <= i < |s| => LowerChar(s[i]))
  }

  // ---------------------------------------------------------------- LIKE

  /** SQL LIKE without an ESCAPE clause: `%` matches any run of characters, `_` any one character. */
  function Like(s: string, p: string): bool
    decreases |s| + |p|
  {
    if p == [] then s == []
    else if p[0] == '%' then Like(s, p[1..]) || (s != [] && Like(s[1..], p))
    else s != [] && (p[0] == '_' || p[0] == s[0]) && Like(s[1..], p[1..])
  }

  predicate NoWildcards(w: string) {
    forall i :: 0 <= i < |w| ==> w[i] != '%' && w[i] != '_'
  }

  predicate HasPrefix(s: string, w: string) {
    |w| <= |s| && s[..|w|] == w
  }

  /** `w` occurs in `s` as a contiguous substring. */
  predicate Contains(s: string, w: string) {
    exists i :: 0 <= i <= |s| && HasPrefix(s[i..], w)
  }

  /** The pattern `"%" + w + "%"` that `nameContains` and `commentContains` build. */
  function ContainsPattern(w: string): (p: string)
    ensures |p| == |w| + 2 && p[0] == '%' && p[|p| - 1] == '%'
  {
    "%" + w + "%"
  }

  lemma {:induction false} LikeAnySuffix(s: string)
    ensures Like(s, "%")
    decreases |s|
  {
    if s != [] {
      LikeAnySuffix(s[1..]);
    }
  }

  /** A pattern `w + "%"` whose `w` has no wildcards matches exactly the strings that start with `w`. */
  lemma {:induction false} LikePrefixPattern(s: string, w: string)
    requires NoWildcards(w)
    ensures Like(s, w + "%") <==> HasPrefix(s, w)
    decreases |w|
  {
    if w == [] {
      assert w + "%" == "%";
      LikeAnySuffix(s);
    } else {
      var p := w + "%";
      assert p[0] == w[0] && p[1..] == w[1..] + "%";
      assert NoWildcards(w[1..]) by {
        forall i | 0 <= i < |w[1..]| ensures w[1..][i] != '%' && w[1..][i] != '_' {
          assert w[1..][i] == w[i + 1];
        }
      }
      assert w[0] != '%' && w[0] != '_' by { assert 0 < |w|; }
      if s == [] {
      } else {
        LikePrefixPattern(s[1..], w[1..]);
        if HasPrefix(s, w) {
          assert s[1..][..|w[1..]|] == s[..|w|][1..];
        }
        if s[0] == w[0] && HasPrefix(s[1..], w[1..]) {
          assert s[..|w|] == [s[0]] + s[1..][..|w[1..]|];
        }
      }
    }
  }

  lemma ContainsStep(s: string, w: string)
    requires s != []
    ensures Contains(s, w) <==> HasPrefix(s, w) || Contains(s[1..], w)
  {
    if Contains(s, w) && !HasPrefix(s, w) {
      var i :| 0 <= i <= |s| && HasPrefix(s[i..], w);
      assert i != 0;
      assert s[1..][i - 1..] == s[i..];
    }
    if Contains(s[1..], w) {
      var i :| 0 <= i <= |s[1..]| && HasPrefix(s[1..][i..], w);
      assert s[1..][i..] == s[i + 1..];
    }
    if HasPrefix(s, w) {
      assert s[0..] == s;
    }
  }

  /** A pattern `"%" + w + "%"` whose `w` has no wildcards matches exactly the strings containing `w`. */
  lemma {:induction false} LikeContainsPattern(s: string, w: string)
    requires NoWildcards(w)
    ensures Like(s, ContainsPattern(w)) <==> Contains(s, w)
    decreases |s|
  {
    var p := ContainsPattern(w);
    assert p[1..] == w + "%";
    LikePrefixPattern(s, w);
    if s == [] {
      assert Contains(s, w) <==> HasPrefix(s, w) by {
        if Contains(s, w) {
          var i :| 0 <= i <= |s| && HasPrefix(s[i..], w);
          assert i == 0 && s[i..] == s;
        }
        if HasPrefix(s, w) {
          assert s[0..] == s;
        }
      }
    } else {
      LikeContainsPattern(s[1..], w);
      ContainsStep(s, w);
    }
  }

  /** Lower-casing cannot create or remove a LIKE wildcard. */
  lemma LowerKeepsNoWildcards(w: string)
    ensures NoWildcards(LowerString(w)) <==> NoWildcards(w)
  {
    var l := LowerString(w);
    if NoWildcards(w) {
      forall i | 0 <= i < |l| ensures l[i] != '%' && l[i] != '_' {
        assert l[i] == LowerChar(w[i]);
      }
    }
    if NoWildcards(l) {
      forall i | 0 <= i < |w| ensures w[i] != '%' && w[i] != '_' {
        assert l[i] == LowerChar(w[i]);
      }
    }
  }

  /**
   * `like(lower(column), "%" + text.toLowerCase() + "%")` on a non-null column
   * value is case-insensitive containment when the text holds no wildcard.
   */
  lemma LowerLikeIsCaseInsensitiveContainment(value: string, text: string)
    requires NoWildcards(text)
    ensures Like(LowerString(value), ContainsPattern(LowerString(text)))
        <==> Contains(LowerString(value), LowerString(text))
  {
    LowerKeepsNoWildcards(text);
    LikeContainsPattern(LowerString(value), LowerString(text));
  }

  /** A user-supplied `_` is not escaped: the text "_" is contained, as a pattern, in every non-empty value. */
  lemma {:induction false} UnderscoreMatchesAnyNonEmpty(value: string)
    requires value != []
    ensures Like(LowerString(value), ContainsPattern(LowerString("_")))
  {
    var l := LowerString(value);
    var p := ContainsPattern(LowerString("_"));
    assert LowerString("_") == "_";
    assert p == "%_%";
    assert p[1..] == "_%" && p[1..][1..] == "%";
    LikeAnySuffix(l[1..]);
    assert Like(l, p[1..]);
  }
}
