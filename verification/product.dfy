/** The cartesian product of a task's resolved sets (`Task.cartesianProduct`).

  `Cartesian` follows `cartesianProduct` in bin/metcalf-cli.js: a left fold over the axes starting from one
  empty combination, extending every combination built so far by every value
  of the next axis.  `Lex` is an independent reference definition of
  lexicographic order, with the first axis varying slowest.  The main result
  is that the two agree.
 */
module Product {

  /** Every value of `s` appended to the prefix `x`, in the order of `s`. */
  function AppendEach<T>(x: seq<T>, s: seq<T>): seq<seq<T>>
  {
    if |s| == 0 then [] else [x + [s[0]]] + AppendEach(x, s[1..])
  }

  /** One reduction step: each prefix of `acc`, in order, extended by each value of `s`. */
  function Extend<T>(acc: seq<seq<T>>, s: seq<T>): seq<seq<T>>
  {
    if |acc| == 0 then [] else AppendEach(acc[0], s) + Extend(acc[1..], s)
  }

  /** The product as `cartesianProduct` computes it: a left fold of `Extend` from `[[]]`. */
  function Cartesian<T>(axes: seq<seq<T>>): seq<seq<T>>
  {
    if |axes| == 0 then [[]] else Extend(Cartesian(axes[..|axes| - 1]), axes[|axes| - 1])
  }

  /** `y` put in front of every tail, in order. */
  function PrependEach<T>(y: T, tails: seq<seq<T>>): seq<seq<T>>
  {
    if |tails| == 0 then [] else [[y] + tails[0]] + PrependEach(y, tails[1..])
  }

  /** Every value of `s`, in order, put in front of every tail. */
  function PrependAll<T>(s: seq<T>, tails: seq<seq<T>>): seq<seq<T>>
  {
    if |s| == 0 then [] else PrependEach(s[0], tails) + PrependAll(s[1..], tails)
  }

  /** Lexicographic order: all combinations starting with the first value of
      the first axis, then all starting with its second value, and so on. */
  function Lex<T>(axes: seq<seq<T>>): seq<seq<T>>
  {
    if |axes| == 0 then [[]] else PrependAll(axes[0], Lex(axes[1..]))
  }

  /** The product of the axis sizes. */
  function Count<T>(axes: seq<seq<T>>): nat
  {
    if |axes| == 0 then 1 else |axes[0]| * Count(axes[1..])
  }

  /** A combination picks, for every axis in order, one of its values. */
  ghost predicate Picks<T>(c: seq<T>, axes: seq<seq<T>>) {
    |c| == |axes| && forall i :: 0 <= i < |c| ==> c[i] in axes[i]
  }

  // ---- Cartesian equals Lex -------------------------------------------------

  lemma {:induction false} ExtendConcat<T>(a: seq<seq<T>>, b: seq<seq<T>>, s: seq<T>)
    ensures Extend(a + b, s) == Extend(a, s) + Extend(b, s)
    decreases |a|
  {
    if |a| == 0 {
      assert a + b == b;
    } else {
      assert (a + b)[0] == a[0];
      assert (a + b)[1..] == a[1..] + b;
      ExtendConcat(a[1..], b, s);
    }
  }

  lemma {:induction false} PrependEachConcat<T>(y: T, a: seq<seq<T>>, b: seq<seq<T>>)
    ensures PrependEach(y, a + b) == PrependEach(y, a) + PrependEach(y, b)
    decreases |a|
  {
    if |a| == 0 {
      assert a + b == b;
    } else {
      assert (a + b)[0] == a[0];
      assert (a + b)[1..] == a[1..] + b;
      PrependEachConcat(y, a[1..], b);
    }
  }

  lemma {:induction false} PrependEachAppendEach<T>(y: T, r: seq<T>, s: seq<T>)
    ensures PrependEach(y, AppendEach(r, s)) == AppendEach([y] + r, s)
    decreases |s|
  {
    if |s| > 0 {
      var tail := AppendEach(r, s[1..]);
      assert AppendEach(r, s) == [r + [s[0]]] + tail;
      assert ([r + [s[0]]] + tail)[1..] == tail;
      PrependEachAppendEach(y, r, s[1..]);
      assert [y] + (r + [s[0]]) == ([y] + r) + [s[0]];
    }
  }

  lemma {:induction false} ExtendPrependEach<T>(y: T, rs: seq<seq<T>>, s: seq<T>)
    ensures Extend(PrependEach(y, rs), s) == PrependEach(y, Extend(rs, s))
    decreases |rs|
  {
    if |rs| > 0 {
      var head := [y] + rs[0];
      var tail := PrependEach(y, rs[1..]);
      assert PrependEach(y, rs) == [head] + tail;
      assert ([head] + tail)[0] == head;
      assert ([head] + tail)[1..] == tail;
      ExtendPrependEach(y, rs[1..], s);
      PrependEachConcat(y, AppendEach(rs[0], s), Extend(rs[1..], s));
      PrependEachAppendEach(y, rs[0], s);
    }
  }

  lemma {:induction false} ExtendPrependAll<T>(a: seq<T>, rs: seq<seq<T>>, s: seq<T>)
    ensures Extend(PrependAll(a, rs), s) == PrependAll(a, Extend(rs, s))
    decreases |a|
  {
    if |a| > 0 {
      ExtendConcat(PrependEach(a[0], rs), PrependAll(a[1..], rs), s);
      ExtendPrependEach(a[0], rs, s);
      ExtendPrependAll(a[1..], rs, s);
    }
  }

  lemma {:induction false} AppendEachToEmpty<T>(s: seq<T>)
    ensures AppendEach([], s) == PrependAll(s, [[]])
    decreases |s|
  {
    if |s| > 0 {
      AppendEachToEmpty(s[1..]);
      assert PrependEach(s[0], [[]]) == [[s[0]] + []];
      assert [] + [s[0]] == [s[0]] + [];
    }
  }

  lemma {:induction false} LexSnoc<T>(axes: seq<seq<T>>, s: seq<T>)
    ensures Lex(axes + [s]) == Extend(Lex(axes), s)
    decreases |axes|
  {
    if |axes| == 0 {
      assert axes + [s] == [s];
      assert [s][1..] == [];
      AppendEachToEmpty(s);
      assert Extend([[]], s) == AppendEach([], s) + Extend([], s);
    } else {
      assert (axes + [s])[0] == axes[0];
      assert (axes + [s])[1..] == axes[1..] + [s];
      LexSnoc(axes[1..], s);
      ExtendPrependAll(axes[0], Lex(axes[1..]), s);
    }
  }

  /** The fold of `cartesianProduct` produces the combinations in lexicographic order:
      the first axis varies slowest and the last one fastest. */
  lemma {:induction false} CartesianIsLex<T>(axes: seq<seq<T>>)
    ensures Cartesian(axes) == Lex(axes)
    decreases |axes|
  {
    if |axes| > 0 {
      var init := axes[..|axes| - 1];
      var last := axes[|axes| - 1];
      CartesianIsLex(init);
      LexSnoc(init, last);
      assert init + [last] == axes;
    }
  }

  // ---- Size -----------------------------------------------------------------

  lemma {:induction false} PrependEachLength<T>(y: T, tails: seq<seq<T>>)
    ensures |PrependEach(y, tails)| == |tails|
    decreases |tails|
  {
    if |tails| > 0 {
      PrependEachLength(y, tails[1..]);
    }
  }

  lemma {:induction false} PrependAllLength<T>(s: seq<T>, tails: seq<seq<T>>)
    ensures |PrependAll(s, tails)| == |s| * |tails|
    decreases |s|
  {
    if |s| > 0 {
      PrependEachLength(s[0], tails);
      PrependAllLength(s[1..], tails);
      assert |s| * |tails| == |tails| + (|s| - 1) * |tails|;
    }
  }

  lemma {:induction false} LexLength<T>(axes: seq<seq<T>>)
    ensures |Lex(axes)| == Count(axes)
    decreases |axes|
  {
    if |axes| > 0 {
      LexLength(axes[1..]);
      PrependAllLength(axes[0], Lex(axes[1..]));
    }
  }

  /** There are as many combinations as the product of the set sizes; no
      sets give exactly the one empty combination. */
  lemma CartesianCount<T>(axes: seq<seq<T>>)
    ensures |Cartesian(axes)| == Count(axes)
    ensures |axes| == 0 ==> Cartesian(axes) == [[]]
  {
    CartesianIsLex(axes);
    LexLength(axes);
  }

  lemma {:induction false} CountZero<T>(axes: seq<seq<T>>)
    ensures Count(axes) == 0 <==> exists i :: 0 <= i < |axes| && |axes[i]| == 0
    decreases |axes|
  {
    if |axes| > 0 {
      CountZero(axes[1..]);
      if Count(axes) == 0 {
        if |axes[0]| != 0 {
          var i :| 0 <= i < |axes[1..]| && |axes[1..][i]| == 0;
          assert |axes[i + 1]| == 0;
        }
      } else {
        forall i | 0 <= i < |axes|
          ensures |axes[i]| != 0
        {
          if i > 0 {
            assert axes[i] == axes[1..][i - 1];
          }
        }
      }
    }
  }

  /** A set with no values leaves the task without any combination, and only then. */
  lemma CartesianEmpty<T>(axes: seq<seq<T>>)
    ensures Cartesian(axes) == [] <==> exists i :: 0 <= i < |axes| && |axes[i]| == 0
  {
    CartesianCount(axes);
    CountZero(axes);
  }

  // ---- Contents -------------------------------------------------------------

  lemma {:induction false} PrependEachMembers<T>(y: T, tails: seq<seq<T>>, c: seq<T>)
    ensures c in PrependEach(y, tails) <==> |c| >= 1 && c[0] == y && c[1..] in tails
    decreases |tails|
  {
    if |tails| > 0 {
      PrependEachMembers(y, tails[1..], c);
      var head := [y] + tails[0];
      assert head[1..] == tails[0];
      if |c| >= 1 && c[0] == y && c[1..] == tails[0] {
        assert c == head;
      }
      if |c| >= 1 {
        assert c[1..] in tails <==> c[1..] == tails[0] || c[1..] in tails[1..] by {
          assert tails == [tails[0]] + tails[1..];
        }
      }
    }
  }

  lemma {:induction false} PrependAllMembers<T>(s: seq<T>, tails: seq<seq<T>>, c: seq<T>)
    ensures c in PrependAll(s, tails) <==> |c| >= 1 && c[0] in s && c[1..] in tails
    decreases |s|
  {
    if |s| > 0 {
      PrependEachMembers(s[0], tails, c);
      PrependAllMembers(s[1..], tails, c);
      assert s == [s[0]] + s[1..];
    }
  }

  lemma {:induction false} LexMembers<T>(axes: seq<seq<T>>, c: seq<T>)
    ensures c in Lex(axes) <==> Picks(c, axes)
    decreases |axes|
  {
    if |axes| == 0 {
      assert c in [[]] <==> c == [];
    } else {
      PrependAllMembers(axes[0], Lex(axes[1..]), c);
      if |c| >= 1 {
        LexMembers(axes[1..], c[1..]);
        if Picks(c, axes) {
          assert forall i :: 0 <= i < |c| - 1 ==> c[1..][i] == c[i + 1];
        }
        if c[0] in axes[0] && Picks(c[1..], axes[1..]) {
          forall i | 0 <= i < |c|
            ensures c[i] in axes[i]
          {
            if i > 0 {
              assert c[i] == c[1..][i - 1];
            }
          }
        }
      }
    }
  }

  /** A combination occurs in the product exactly when it picks one value of
      every set, in the order of the sets. */
  lemma CartesianMembers<T>(axes: seq<seq<T>>, c: seq<T>)
    ensures c in Cartesian(axes) <==> Picks(c, axes)
  {
    CartesianIsLex(axes);
    LexMembers(axes, c);
  }

  /** Every combination has one entry per set. */
  lemma CartesianWidth<T>(axes: seq<seq<T>>)
    ensures forall k :: 0 <= k < |Cartesian(axes)| ==> |Cartesian(axes)[k]| == |axes|
  {
    forall k | 0 <= k < |Cartesian(axes)|
      ensures |Cartesian(axes)[k]| == |axes|
    {
      CartesianMembers(axes, Cartesian(axes)[k]);
    }
  }
}
