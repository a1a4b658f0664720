/** The event filter the reaction task applies to the preference publisher:
    `dropFirst()` followed by `removeDuplicates()`. A stream is the sequence of
    values the publisher emits, the first being the value present when the
    subscription starts and each later one a write through the setter. */
module Publisher {

  function Last<T>(s: seq<T>): T
    requires s != []
  {
    s[|s| - 1]
  }

  function DropLast<T>(s: seq<T>): seq<T>
    requires s != []
  {
    s[..|s| - 1]
  }

  /** No element equals the element just before it. */
  ghost predicate NoAdjacentDuplicates<T>(s: seq<T>)
  {
    forall i, j :: 0 <= i < j < |s| && j == i + 1 ==> s[i] != s[j]
  }

  /** `dropFirst()`: everything after the first emitted value. */
  function DropFirst<T>(s: seq<T>): (r: seq<T>)
    ensures s == [] ==> r == []
    ensures s != [] ==> [s[0]] + r == s
  {
    if s == [] then [] else s[1..]
  }

  /** The decision `removeDuplicates()` takes for a new upstream value `x`
      when `upstream` has already passed through it: republish unless `x`
      equals the value received just before. */
  predicate Republishes<T(==)>(upstream: seq<T>, x: T)
  {
    upstream == [] || Last(upstream) != x
  }

  /** `removeDuplicates()`: the values it republishes for upstream `s`, in order. */
  function RemoveDuplicates<T(==)>(s: seq<T>): (r: seq<T>)
    ensures |r| <= |s|
    decreases |s|
  {
    if s == [] then []
    else
      var earlier := RemoveDuplicates(DropLast(s));
      if Republishes(DropLast(s), Last(s)) then earlier + [Last(s)] else earlier
  }

  /** removeDuplicates' output is no longer than its input, starts and ends
      with the input's first and last values, and has no adjacent duplicates. */
  lemma {:induction false} RemoveDuplicatesShape<T>(s: seq<T>)
    ensures |RemoveDuplicates(s)| <= |s|
    ensures RemoveDuplicates(s) == [] <==> s == []
    ensures s != [] ==> RemoveDuplicates(s)[0] == s[0] && Last(RemoveDuplicates(s)) == Last(s)
    ensures NoAdjacentDuplicates(RemoveDuplicates(s))
    decreases |s|
  {
    if s != [] {
      var front := DropLast(s);
      RemoveDuplicatesShape(front);
      var earlier := RemoveDuplicates(front);
      if Republishes(front, Last(s)) {
        var r := earlier + [Last(s)];
        assert r == RemoveDuplicates(s);
        if earlier != [] {
          assert Last(earlier) == Last(front) == s[|s| - 2];
          assert r[0] == earlier[0];
        }
        forall i, j | 0 <= i < j < |r| && j == i + 1 ensures r[i] != r[j] {
          if j < |earlier| {
            assert r[i] == earlier[i] && r[j] == earlier[j];
          } else {
            assert r[i] == Last(earlier);
          }
        }
      }
    }
  }

  /** The values the reaction task receives for publisher stream `stream`. */
  function Changes<T(==)>(stream: seq<T>): (r: seq<T>)
    ensures stream != [] ==> |r| < |stream|
  {
    RemoveDuplicates(DropFirst(stream))
  }

  /** `s` is `r` with every element repeated one or more times in place:
      `r` keeps the order of `s` and one representative of each run. */
  predicate StutterOf<T(==)>(s: seq<T>, r: seq<T>)
    decreases |s|
  {
    if s == [] then r == []
    else
      && r != []
      && Last(r) == Last(s)
      && (StutterOf(DropLast(s), r) || StutterOf(DropLast(s), DropLast(r)))
  }

  /** The number of positions whose element differs from the element before it. */
  function CountChanges<T(==)>(s: seq<T>): nat
    decreases |s|
  {
    if |s| <= 1 then 0
    else CountChanges(DropLast(s)) + (if s[|s| - 2] != Last(s) then 1 else 0)
  }

  /** removeDuplicates keeps the order of its input and one value per run. */
  lemma {:induction false} RemoveDuplicatesStutters<T>(s: seq<T>)
    ensures StutterOf(s, RemoveDuplicates(s))
    decreases |s|
  {
    if s != [] {
      RemoveDuplicatesStutters(DropLast(s));
      var r := RemoveDuplicates(s);
      if Republishes(DropLast(s), Last(s)) {
        assert DropLast(r) == RemoveDuplicates(DropLast(s));
      }
    }
  }

  /** Any duplicate-free collapse of `s` into runs is removeDuplicates' output. */
  lemma {:induction false} StutterDeterminesRemoveDuplicates<T>(s: seq<T>, r: seq<T>)
    requires NoAdjacentDuplicates(r)
    requires StutterOf(s, r)
    ensures r == RemoveDuplicates(s)
    decreases |s|
  {
    if s != [] {
      var front := DropLast(s);
      if StutterOf(front, r) {
        StutterDeterminesRemoveDuplicates(front, r);
        assert !Republishes(front, Last(s));
      } else {
        var rf := DropLast(r);
        assert NoAdjacentDuplicates(rf) by {
          forall i, j | 0 <= i < j < |rf| && j == i + 1 ensures rf[i] != rf[j] {
            assert rf[i] == r[i] && rf[j] == r[j];
          }
        }
        StutterDeterminesRemoveDuplicates(front, rf);
        if front != [] {
          assert r[|r| - 2] == Last(rf);
        }
      }
    }
  }

  /** removeDuplicates is characterised by the two things it promises:
      its output is free of adjacent duplicates, and collapses `s` run by run. */
  lemma RemoveDuplicatesCharacterization<T>(s: seq<T>, r: seq<T>)
    ensures r == RemoveDuplicates(s) <==> NoAdjacentDuplicates(r) && StutterOf(s, r)
  {
    RemoveDuplicatesStutters(s);
    if NoAdjacentDuplicates(r) && StutterOf(s, r) {
      StutterDeterminesRemoveDuplicates(s, r);
    }
  }

  /** removeDuplicates republishes one value for the first element and one for
      every change of value. */
  lemma {:induction false} RemoveDuplicatesLength<T>(s: seq<T>)
    ensures |RemoveDuplicates(s)| == if s == [] then 0 else 1 + CountChanges(s)
    decreases |s|
  {
    if s != [] {
      RemoveDuplicatesLength(DropLast(s));
    }
  }

  /** A stream that already has no adjacent duplicates passes unchanged. */
  lemma {:induction false} RemoveDuplicatesKeepsDistinct<T>(s: seq<T>)
    requires NoAdjacentDuplicates(s)
    ensures RemoveDuplicates(s) == s
    decreases |s|
  {
    if s != [] {
      var front := DropLast(s);
      assert NoAdjacentDuplicates(front) by {
        forall i, j | 0 <= i < j < |front| && j == i + 1 ensures front[i] != front[j] {
          assert front[i] == s[i] && front[j] == s[j];
        }
      }
      RemoveDuplicatesKeepsDistinct(front);
      if front != [] {
        assert Last(front) == s[|s| - 2];
      }
    }
  }

  /** removeDuplicates is idempotent. */
  lemma RemoveDuplicatesIdempotent<T>(s: seq<T>)
    ensures RemoveDuplicates(RemoveDuplicates(s)) == RemoveDuplicates(s)
  {
    RemoveDuplicatesShape(s);
    RemoveDuplicatesKeepsDistinct(RemoveDuplicates(s));
  }

  /** The value present at subscription never reaches the reaction task:
      only the writes after it are filtered. */
  lemma ChangesIgnoreCurrentValue<T>(current: T, writes: seq<T>)
    ensures Changes([current] + writes) == RemoveDuplicates(writes)
  {
    assert DropFirst([current] + writes) == writes;
  }

  /** Running the whole filter again is not the identity: the duplicate
      removal stage changes nothing, but dropFirst discards one more value. */
  lemma ChangesTwice<T>(stream: seq<T>)
    ensures RemoveDuplicates(Changes(stream)) == Changes(stream)
    ensures Changes(Changes(stream)) == DropFirst(Changes(stream))
  {
    var c := Changes(stream);
    RemoveDuplicatesShape(DropFirst(stream));
    RemoveDuplicatesKeepsDistinct(c);
    var d := DropFirst(c);
    assert NoAdjacentDuplicates(d) by {
      forall i, j | 0 <= i < j < |d| && j == i + 1 ensures d[i] != d[j] {
        assert d[i] == c[i + 1] && d[j] == c[j + 1];
      }
    }
    RemoveDuplicatesKeepsDistinct(d);
  }

  /** Appending one upstream value to `s` appends it to the output exactly
      when removeDuplicates republishes it. */
  lemma RemoveDuplicatesAppend<T>(s: seq<T>, x: T)
    ensures RemoveDuplicates(s + [x])
         == if Republishes(s, x) then RemoveDuplicates(s) + [x] else RemoveDuplicates(s)
  {
    assert DropLast(s + [x]) == s;
  }

  /** Appending one value adds a change exactly when it differs from the last. */
  lemma CountChangesAppend<T>(s: seq<T>, x: T)
    ensures CountChanges(s + [x]) == CountChanges(s) + (if s != [] && Last(s) != x then 1 else 0)
  {
    assert DropLast(s + [x]) == s;
  }

  /** The writes' duplicate removal, counted against the writes with the
      value present at subscription in front of them. */
  lemma {:induction false} RemoveDuplicatesLengthAfter<T>(current: T, writes: seq<T>)
    ensures |RemoveDuplicates(writes)|
         == CountChanges([current] + writes) + (if writes != [] && writes[0] == current then 1 else 0)
    decreases |writes|
  {
    if writes != [] {
      var front := DropLast(writes);
      var x := Last(writes);
      var before := [current] + front;
      RemoveDuplicatesLengthAfter(current, front);
      assert |RemoveDuplicates(writes)| == |RemoveDuplicates(front)| + (if Republishes(front, x) then 1 else 0) by {
        RemoveDuplicatesAppend(front, x);
        assert front + [x] == writes;
      }
      assert CountChanges([current] + writes) == CountChanges(before) + (if Last(before) != x then 1 else 0) by {
        CountChangesAppend(before, x);
        assert before + [x] == [current] + writes;
      }
      if front == [] {
        assert Last(before) == current;
      } else {
        assert Last(before) == Last(front) && front[0] == writes[0];
      }
    }
  }

  /** The number of values the reaction task receives, counted against the
      writes: one per write that differs from the value before it (the value
      present at subscription for the first write), plus one when the first
      write repeats that value, since dropFirst runs before removeDuplicates. */
  lemma ChangesLength<T>(current: T, writes: seq<T>)
    ensures |Changes([current] + writes)|
         == CountChanges([current] + writes) + (if writes != [] && writes[0] == current then 1 else 0)
  {
    ChangesIgnoreCurrentValue(current, writes);
    RemoveDuplicatesLengthAfter(current, writes);
  }
}
