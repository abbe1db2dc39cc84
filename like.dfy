/**
 * `Value::like` and its local class `Liker`: SQL LIKE over code points,
 * where `%` matches any run of code points and `_` exactly one.
 */
module Like {
  import opened Ints
  import opened Values
  import opened Utf8

  const PERCENT: nat := 0x25
  const UNDERSCORE: nat := 0x5F

  /**
   * What `Liker::like` computes from a value and a pattern read as code
   * points: the pattern is walked left to right; after a `%` that is not
   * last, each remaining value position is tried in turn.
   */
  function LikeCodePoints(v: seq<nat>, p: seq<nat>): bool
    decreases |p|, |v| + 1
  {
    if p == [] then v == []
    else if p[0] == PERCENT then |p| == 1 || ScanAfterPercent(v, p[1..])
    else if v == [] then false
    else (p[0] == UNDERSCORE || p[0] == v[0]) && LikeCodePoints(v[1..], p[1..])
  }

  /**
   * The inner loop after a `%`: from each value position, recurse on the
   * pattern after the `%` when its next code point is special or equals the
   * value's; give up once the value is exhausted.
   */
  function ScanAfterPercent(w: seq<nat>, q: seq<nat>): bool
    requires q != []
    decreases |q| + 1, |w|
  {
    if w == [] then false
    else ((q[0] == UNDERSCORE || q[0] == PERCENT || q[0] == w[0]) && LikeCodePoints(w, q)) || ScanAfterPercent(w[1..], q)
  }

  /** SQL LIKE as the standard defines it: `%` matches any, possibly empty, run. */
  predicate SqlLike(v: seq<nat>, p: seq<nat>)
    decreases |p|
  {
    if p == [] then v == []
    else if p[0] == PERCENT then exists i | 0 <= i <= |v| :: SqlLike(v[i..], p[1..])
    else v != [] && (p[0] == UNDERSCORE || p[0] == v[0]) && SqlLike(v[1..], p[1..])
  }

  /** No `%` directly followed by another `%`. */
  predicate NoDoubledPercent(p: seq<nat>) {
    forall i :: 0 <= i < |p| - 1 ==> !(p[i] == PERCENT && p[i + 1] == PERCENT)
  }

  /** Without a doubled `%`, the matcher is exactly SQL LIKE. */
  lemma {:induction false} LikeIsSqlLike(v: seq<nat>, p: seq<nat>)
    requires NoDoubledPercent(p)
    ensures LikeCodePoints(v, p) == SqlLike(v, p)
    decreases |p|, |v| + 1
  {
    if p == [] {
    } else if p[0] == PERCENT {
      if |p| == 1 {
        assert SqlLike(v[|v|..], p[1..]);
      } else {
        assert p[1..][0] != PERCENT;
        ScanIsSqlLike(v, p[1..]);
      }
    } else if v != [] {
      LikeIsSqlLike(v[1..], p[1..]);
    }
  }

  lemma {:induction false} ScanIsSqlLike(w: seq<nat>, q: seq<nat>)
    requires q != [] && q[0] != PERCENT && NoDoubledPercent(q)
    ensures ScanAfterPercent(w, q) == exists i | 0 <= i <= |w| :: SqlLike(w[i..], q)
    decreases |q| + 1, |w|
  {
    if w == [] {
      assert forall i | 0 <= i <= |w| :: w[i..] == [];
    } else {
      LikeIsSqlLike(w, q);
      ScanIsSqlLike(w[1..], q);
      assert w[0..] == w;
      assert forall i | 1 <= i <= |w| :: w[i..] == w[1..][i - 1..];
      assert forall i | 0 <= i <= |w| - 1 :: w[1..][i..] == w[i + 1..];
    }
  }

  /**
   * A `%` directly followed by another `%` never matches an exhausted value,
   * whatever follows; SQL LIKE lets both `%`s match the empty run instead.
   */
  lemma DoubledPercentQuirk(q: seq<nat>)
    ensures !LikeCodePoints([], [PERCENT, PERCENT] + q)
    ensures SqlLike([], [PERCENT, PERCENT] + q) == SqlLike([], q)
    ensures SqlLike([], [PERCENT, PERCENT])
  {
    var e: seq<nat> := [];
    assert ([PERCENT, PERCENT] + q)[1..] == [PERCENT] + q;
    assert ([PERCENT] + q)[1..] == q;
    assert e[0..] == e;
    assert SqlLike(e, [PERCENT] + q) == SqlLike(e, q);
    assert SqlLike(e, [PERCENT]) by {
      assert SqlLike(e[0..], []);
    }
  }

  /** A value that matched a `%`-free pattern is exhausted when the pattern's `%%` is reached. */
  lemma {:induction false} LiteralPrefixDoubledPercent(u: seq<nat>, q: seq<nat>)
    requires forall i :: 0 <= i < |u| ==> u[i] != PERCENT
    ensures !LikeCodePoints(u, u + [PERCENT, PERCENT] + q)
    decreases |u|
  {
    if u == [] {
      assert u + [PERCENT, PERCENT] + q == [PERCENT, PERCENT] + q;
      DoubledPercentQuirk(q);
    } else {
      var p := u + [PERCENT, PERCENT] + q;
      assert p[0] == u[0] && p[1..] == u[1..] + [PERCENT, PERCENT] + q;
      LiteralPrefixDoubledPercent(u[1..], q);
    }
  }

  /** A trailing `%` matches any remainder of a value that matched the pattern before it. */
  lemma TrailingPercent(v: seq<nat>, rest: seq<nat>, p: seq<nat>)
    requires NoDoubledPercent(p + [PERCENT])
    requires LikeCodePoints(v, p)
    ensures LikeCodePoints(v + rest, p + [PERCENT])
  {
    assert NoDoubledPercent(p) by {
      forall i | 0 <= i < |p| - 1
        ensures !(p[i] == PERCENT && p[i + 1] == PERCENT)
      {
        assert (p + [PERCENT])[i] == p[i] && (p + [PERCENT])[i + 1] == p[i + 1];
      }
    }
    LikeIsSqlLike(v, p);
    SqlLikeExtends(v, rest, p);
    LikeIsSqlLike(v + rest, p + [PERCENT]);
  }

  lemma {:induction false} SqlLikeExtends(v: seq<nat>, rest: seq<nat>, p: seq<nat>)
    requires SqlLike(v, p)
    ensures SqlLike(v + rest, p + [PERCENT])
    decreases |p|
  {
    if p == [] {
      var e: seq<nat> := [];
      assert SqlLike(rest[|rest|..], e);
      assert (p + [PERCENT])[1..] == e && v + rest == rest;
    } else if p[0] == PERCENT {
      var i :| 0 <= i <= |v| && SqlLike(v[i..], p[1..]);
      SqlLikeExtends(v[i..], rest, p[1..]);
      assert (v + rest)[i..] == v[i..] + rest;
      assert (p + [PERCENT])[1..] == p[1..] + [PERCENT];
    } else {
      SqlLikeExtends(v[1..], rest, p[1..]);
      assert (v + rest)[1..] == v[1..] + rest;
      assert (p + [PERCENT])[1..] == p[1..] + [PERCENT];
    }
  }

  /** A pattern of plain code points matches exactly itself. */
  lemma {:induction false} LiteralPattern(v: seq<nat>, p: seq<nat>)
    requires forall i :: 0 <= i < |p| ==> p[i] != PERCENT && p[i] != UNDERSCORE
    ensures LikeCodePoints(v, p) <==> v == p
    decreases |p|
  {
    if p != [] && v != [] {
      LiteralPattern(v[1..], p[1..]);
      if v[1..] == p[1..] && v[0] == p[0] {
        assert v == [v[0]] + v[1..] && p == [p[0]] + p[1..];
      }
    }
  }

  /** A pattern of n underscores matches exactly the values of n code points. */
  lemma {:induction false} UnderscorePattern(v: seq<nat>, p: seq<nat>)
    requires forall i :: 0 <= i < |p| ==> p[i] == UNDERSCORE
    ensures LikeCodePoints(v, p) <==> |v| == |p|
    decreases |p|
  {
    if p != [] && v != [] {
      UnderscorePattern(v[1..], p[1..]);
    }
  }

  class Liker {
    const value: UTF8Iterator
    const pattern: UTF8Iterator

    /** `Liker(valueChars, patternChars, valueLength, patternLength)`. */
    constructor (valueText: seq<byte>, patternText: seq<byte>)
      ensures fresh(value) && fresh(pattern) && value != pattern
      ensures value.text == valueText && value.cursor == 0
      ensures pattern.text == patternText && pattern.cursor == 0
    {
      value := new UTF8Iterator(valueText);
      pattern := new UTF8Iterator(patternText);
    }

    /** The recursion context: fresh cursors into the same two buffers. */
    constructor Nested(original: Liker, valueStart: nat, patternStart: nat)
      requires valueStart <= |original.value.text| && patternStart <= |original.pattern.text|
      ensures fresh(value) && fresh(pattern) && value != pattern
      ensures value.text == original.value.text && value.cursor == valueStart
      ensures pattern.text == original.pattern.text && pattern.cursor == patternStart
    {
      value := new UTF8Iterator.At(original.value, valueStart);
      pattern := new UTF8Iterator.At(original.pattern, patternStart);
    }

    /** `Liker::like`: match the rest of the value against the rest of the pattern. */
    method Like() returns (r: bool)
      requires value != pattern
      modifies value, pattern
      ensures r == LikeCodePoints(CodePoints(value.text, old(value.cursor)), CodePoints(pattern.text, old(pattern.cursor)))
      decreases |CodePoints(pattern.text, pattern.cursor)|
    {
      ghost var goal := LikeCodePoints(CodePoints(value.text, value.cursor), CodePoints(pattern.text, pattern.cursor));
      ghost var size := |CodePoints(pattern.text, pattern.cursor)|;
      while !pattern.AtEnd()
        invariant LikeCodePoints(CodePoints(value.text, value.cursor), CodePoints(pattern.text, pattern.cursor)) == goal
        invariant |CodePoints(pattern.text, pattern.cursor)| <= size
        decreases |CodePoints(pattern.text, pattern.cursor)|
      {
        ghost var v := CodePoints(value.text, value.cursor);
        ghost var p := CodePoints(pattern.text, pattern.cursor);
        var c := pattern.ExtractCodePoint();
        assert p[1..] == CodePoints(pattern.text, pattern.cursor);
        if c == PERCENT {
          if pattern.AtEnd() {
            return true;
          }
          var postPercent := pattern.cursor;
          ghost var q := CodePoints(pattern.text, postPercent);
          assert goal == ScanAfterPercent(v, q);
          var next := pattern.ExtractCodePoint();
          var special := next == UNDERSCORE || next == PERCENT;
          while !value.AtEnd()
            invariant ScanAfterPercent(CodePoints(value.text, value.cursor), q) == goal
            decreases |CodePoints(value.text, value.cursor)|
          {
            var pre := value.cursor;
            var vc := value.ExtractCodePoint();
            if special || next == vc {
              var context := new Liker.Nested(this, pre, postPercent);
              var found := context.Like();
              if found {
                return true;
              }
            }
          }
          return false;
        } else if c == UNDERSCORE {
          if value.AtEnd() {
            return false;
          }
          var _ := value.ExtractCodePoint();
        } else {
          if value.AtEnd() {
            return false;
          }
          var vc := value.ExtractCodePoint();
          if c != vc {
            return false;
          }
        }
      }
      return value.AtEnd();
    }
  }

  /** What `like` answers for two values. */
  function LikeSpec(lhs: Value, rhs: Value): Result<Value>
    requires WellTyped(lhs) && WellTyped(rhs) && !IsNull(lhs) && !IsNull(rhs)
  {
    if !lhs.kind.Varchar? || !rhs.kind.Varchar? then Err(Fault(LikeOperandNotVarchar))
    else Ok(BooleanValue(LikeCodePoints(CodePoints(lhs.payload.b, 0), CodePoints(rhs.payload.b, 0))))
  }

  /**
   * `Value::like`: both sides must be VARCHAR; an empty pattern matches only
   * an empty value; otherwise a `Liker` walks both buffers from the start.
   */
  method LikeValues(lhs: Value, rhs: Value) returns (r: Result<Value>)
    requires WellTyped(lhs) && WellTyped(rhs) && !IsNull(lhs) && !IsNull(rhs)
    ensures r == LikeSpec(lhs, rhs)
    ensures r.Err? <==> !lhs.kind.Varchar? || !rhs.kind.Varchar?
    ensures r.Ok? && rhs.payload.b == [] ==> r == Ok(BooleanValue(lhs.payload.b == []))
  {
    if !lhs.kind.Varchar? || !rhs.kind.Varchar? {
      return Err(Fault(LikeOperandNotVarchar));
    }
    if |rhs.payload.b| == 0 {
      return Ok(BooleanValue(|lhs.payload.b| == 0));
    }
    var liker := new Liker(lhs.payload.b, rhs.payload.b);
    var matched := liker.Like();
    return Ok(BooleanValue(matched));
  }

  /** On 7-bit text without a doubled `%`, `like` is SQL LIKE over the bytes. */
  lemma AsciiLikeIsSqlLike(lhs: Value, rhs: Value)
    requires lhs.kind.Varchar? && rhs.kind.Varchar? && WellTyped(lhs) && WellTyped(rhs)
    requires !IsNull(lhs) && !IsNull(rhs)
    requires forall i :: 0 <= i < |lhs.payload.b| ==> lhs.payload.b[i] < 0x80
    requires forall i :: 0 <= i < |rhs.payload.b| ==> rhs.payload.b[i] < 0x80
    requires NoDoubledPercent(CodePoints(rhs.payload.b, 0))
    ensures LikeSpec(lhs, rhs) == Ok(BooleanValue(SqlLike(CodePoints(lhs.payload.b, 0), CodePoints(rhs.payload.b, 0))))
    ensures CodePoints(lhs.payload.b, 0) == lhs.payload.b && CodePoints(rhs.payload.b, 0) == rhs.payload.b
  {
    AsciiCodePoints(lhs.payload.b, 0);
    AsciiCodePoints(rhs.payload.b, 0);
    LikeIsSqlLike(CodePoints(lhs.payload.b, 0), CodePoints(rhs.payload.b, 0));
  }

  /** `like("", "%%")` is false. */
  lemma EmptyValueDoubledPercent()
    ensures LikeSpec(Value(Varchar, Bytes([]), false), Value(Varchar, Bytes([0x25, 0x25]), false)) == Ok(BooleanValue(false))
  {
    var p: seq<byte> := [0x25, 0x25];
    AsciiCodePoints(p, 0);
    assert CodePoints(p, 0) == [PERCENT, PERCENT];
    DoubledPercentQuirk([]);
    assert [PERCENT, PERCENT] + [] == [PERCENT, PERCENT];
  }
}
