/** Shared vocabulary: an optional value, and counting the marks set in a row of
    index-aligned page elements (open answers, active options, displayed cards). */
module Common {

  /** A value that may be absent: a missing DOM element, an absent attribute,
      or the NaN that `parseInt` yields on a string without digits. */
  datatype Option<T> = None | Some(value: T) {
    function GetOr(default: T): T {
      match this
      case Some(v) => v
      case None => default
    }
  }

  /** How many elements of a row carry the mark. */
  function CountTrue(s: seq<bool>): nat {
    if s == [] then 0 else (if s[0] then 1 else 0) + CountTrue(s[1..])
  }

  /** No two distinct positions carry the mark. */
  predicate AtMostOne(s: seq<bool>) {
    forall i, j :: 0 <= i < |s| && 0 <= j < |s| && s[i] && s[j] ==> i == j
  }

  /** The row of `n` marks in which exactly position `i` is set. */
  function OneHot(n: nat, i: nat): seq<bool> {
    seq(n, j => j == i)
  }

  lemma {:induction false} CountTrueZero(s: seq<bool>)
    ensures CountTrue(s) == 0 <==> forall i :: 0 <= i < |s| ==> !s[i]
  {
    if s != [] {
      CountTrueZero(s[1..]);
      assert forall i :: 1 <= i < |s| ==> s[i] == s[1..][i - 1];
    }
  }

  /** Counting and the pairwise formulation agree: at most one mark is set
      exactly when the count of marks is at most one. */
  lemma {:induction false} CountTrueAtMostOne(s: seq<bool>)
    ensures CountTrue(s) <= 1 <==> AtMostOne(s)
  {
    if s != [] {
      var t := s[1..];
      CountTrueAtMostOne(t);
      CountTrueZero(t);
      assert forall i :: 1 <= i < |s| ==> s[i] == t[i - 1];
      if s[0] {
        if CountTrue(s) <= 1 {
          assert forall i :: 0 <= i < |s| && s[i] ==> i == 0;
        } else {
          var k :| 0 <= k < |t| && t[k];
          assert s[k + 1];
        }
      } else {
        if AtMostOne(s) {
          forall i, j | 0 <= i < |t| && 0 <= j < |t| && t[i] && t[j] ensures i == j {
            assert s[i + 1] && s[j + 1];
          }
        }
      }
    }
  }

  /** A one-hot row has exactly one mark set, whatever its length beyond `i`. */
  lemma {:induction false} OneHotCount(n: nat, i: nat)
    requires i < n
    ensures CountTrue(OneHot(n, i)) == 1
    ensures AtMostOne(OneHot(n, i))
  {
    var s := OneHot(n, i);
    var t := s[1..];
    if i == 0 {
      CountTrueZero(t);
    } else {
      assert t == OneHot(n - 1, i - 1);
      OneHotCount(n - 1, i - 1);
    }
    CountTrueAtMostOne(s);
  }

  /** Reduction modulo `n` of a value below `2 * n` is at most one subtraction. */
  lemma ModSmall(x: int, n: int)
    requires n > 0 && 0 <= x < 2 * n
    ensures x % n == if x < n then x else x - n
  {
    if x >= n {
      assert x - n == x % n;
    }
  }

  /** The keys a focused FAQ question or size option treats as a click. */
  predicate IsActivationKey(key: string) {
    key == "Enter" || key == " "
  }
}
