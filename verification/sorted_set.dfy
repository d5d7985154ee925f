/** A Redis sorted set as a sequence of entries kept in ascending (score, member)
    order with unique members: ZADD, ZREVRANGE and the order they rely on. */
module SortedSet {
  import opened Types
  import opened Strings

  datatype Entry = Entry(member: string, score: int)

  type ZSet = seq<Entry>

  /** Redis ranks by score, then by member bytes. */
  predicate Below(a: Entry, b: Entry) {
    a.score < b.score || (a.score == b.score && LexLess(a.member, b.member))
  }

  ghost predicate Sorted(z: ZSet) {
    forall i, j :: 0 <= i < j < |z| ==> Below(z[i], z[j])
  }

  ghost predicate UniqueMembers(z: ZSet) {
    forall i, j :: 0 <= i < j < |z| ==> z[i].member != z[j].member
  }

  ghost predicate Valid(z: ZSet) {
    Sorted(z) && UniqueMembers(z)
  }

  function Members(z: ZSet): set<string> {
    set e | e in z :: e.member
  }

  lemma BelowTransitive(a: Entry, b: Entry, c: Entry)
    requires Below(a, b) && Below(b, c)
    ensures Below(a, c)
  {
    if a.score == b.score && b.score == c.score {
      LexLessTransitive(a.member, b.member, c.member);
    }
  }

  lemma BelowTotal(a: Entry, b: Entry)
    requires a.member != b.member
    ensures Below(a, b) || Below(b, a)
  {
    LexLessTotal(a.member, b.member);
  }

  lemma BelowIrreflexive(a: Entry)
    ensures !Below(a, a)
  {
    LexLessIrreflexive(a.member);
  }

  /** The score of a member; the first entry carrying it. */
  function ScoreOf(z: ZSet, m: string): (sc: int)
    requires m in Members(z)
    ensures Entry(m, sc) in z
  {
    if z[0].member == m then z[0].score
    else
      assert m in Members(z[1..]) by {
        var e :| e in z && e.member == m;
        assert e != z[0];
      }
      ScoreOf(z[1..], m)
  }

  lemma ScoreOfEntry(z: ZSet, k: int)
    requires UniqueMembers(z) && 0 <= k < |z|
    ensures z[k].member in Members(z)
    ensures ScoreOf(z, z[k].member) == z[k].score
  {
    var m := z[k].member;
    assert z[k] in z;
    var sc := ScoreOf(z, m);
    var j :| 0 <= j < |z| && z[j] == Entry(m, sc);
    assert j == k;
  }

  /** ZREM: drops the entry of member `m`, if any, keeping the order of the rest. */
  function Remove(z: ZSet, m: string): (r: ZSet)
    ensures forall e :: e in r <==> e in z && e.member != m
    ensures Sorted(z) ==> Sorted(r)
    ensures UniqueMembers(z) ==> UniqueMembers(r)
    ensures m !in Members(z) ==> r == z
  {
    if |z| == 0 then []
    else
      var rest := Remove(z[1..], m);
      if z[0].member == m then rest
      else
        var r := [z[0]] + rest;
        assert forall e :: e in rest ==> e in z[1..];
        assert Sorted(z) ==> Sorted(r) by {
          if Sorted(z) {
            forall i, j | 0 <= i < j < |r| ensures Below(r[i], r[j]) {
              if i == 0 {
                assert r[j] in z[1..];
              }
            }
          }
        }
        assert UniqueMembers(z) ==> UniqueMembers(r) by {
          if UniqueMembers(z) {
            forall i, j | 0 <= i < j < |r| ensures r[i].member != r[j].member {
              if i == 0 {
                assert r[j] in z[1..];
              }
            }
          }
        }
        r
  }

  /** Places a new entry at its rank. */
  function Insert(z: ZSet, e: Entry): (r: ZSet)
    ensures |r| == |z| + 1
    ensures forall x :: x in r <==> x in z || x == e
    ensures Sorted(z) && e.member !in Members(z) ==> Sorted(r)
    ensures UniqueMembers(z) && e.member !in Members(z) ==> UniqueMembers(r)
  {
    if |z| == 0 || Below(e, z[0]) then
      var r := [e] + z;
      assert Sorted(z) && e.member !in Members(z) ==> Sorted(r) by {
        if Sorted(z) && e.member !in Members(z) {
          forall i, j | 0 <= i < j < |r| ensures Below(r[i], r[j]) {
            if i == 0 && j > 1 {
              BelowTransitive(e, z[0], z[j - 1]);
            }
          }
        }
      }
      assert UniqueMembers(z) && e.member !in Members(z) ==> UniqueMembers(r) by {
        if UniqueMembers(z) && e.member !in Members(z) {
          forall i, j | 0 <= i < j < |r| ensures r[i].member != r[j].member {
            if i == 0 {
              assert z[j - 1] in z;
            }
          }
        }
      }
      r
    else
      var rest := Insert(z[1..], e);
      var r := [z[0]] + rest;
      assert e.member !in Members(z) ==> e.member !in Members(z[1..]) by {
        if e.member in Members(z[1..]) {
          var x :| x in z[1..] && x.member == e.member;
          assert x in z;
        }
      }
      assert Sorted(z) && e.member !in Members(z) ==> Sorted(r) by {
        if Sorted(z) && e.member !in Members(z) {
          assert z[0] in z;
          BelowTotal(e, z[0]);
          forall i, j | 0 <= i < j < |r| ensures Below(r[i], r[j]) {
            if i == 0 {
              assert r[j] in rest;
              if r[j] != e {
                assert r[j] in z[1..];
              }
            }
          }
        }
      }
      assert UniqueMembers(z) && e.member !in Members(z) ==> UniqueMembers(r) by {
        if UniqueMembers(z) && e.member !in Members(z) {
          assert z[0] in z;
          forall i, j | 0 <= i < j < |r| ensures r[i].member != r[j].member {
            if i == 0 {
              assert r[j] in rest;
              if r[j] != e {
                assert r[j] in z[1..];
              }
            }
          }
        }
      }
      r
  }

  /** ZADD key score member: inserts the member, or moves it to its new score. */
  function Add(z: ZSet, m: string, score: int): (r: ZSet)
    ensures Valid(z) ==> Valid(r)
    ensures Entry(m, score) in r
    ensures forall e :: e in r && e != Entry(m, score) <==> e in z && e.member != m
    ensures Members(r) == Members(z) + {m}
  {
    var removed := Remove(z, m);
    var r := Insert(removed, Entry(m, score));
    assert m !in Members(removed);
    r
  }

  /** A member not yet present whose score tops every entry lands last. */
  lemma {:induction false} InsertOnTop(z: ZSet, e: Entry)
    requires forall x :: x in z ==> x.score < e.score
    ensures Insert(z, e) == z + [e]
    decreases |z|
  {
    if |z| > 0 {
      assert z[0] in z;
      assert !Below(e, z[0]);
      assert forall x :: x in z[1..] ==> x in z;
      InsertOnTop(z[1..], e);
      assert z == [z[0]] + z[1..];
    }
  }

  lemma AddOnTop(z: ZSet, m: string, score: int)
    requires m !in Members(z)
    requires forall x :: x in z ==> x.score < score
    ensures Add(z, m, score) == z + [Entry(m, score)]
  {
    InsertOnTop(z, Entry(m, score));
  }

  /** ZREVRANGE key start stop: ranks count from the highest entry, a negative index
      counts from the end, both ends are inclusive and the range is clamped. */
  function RevRange(z: ZSet, start: int, stop: int): (r: seq<string>)
    ensures |r| <= |z|
    ensures forall x :: x in r ==> x in Members(z)
    ensures start == 0 && stop >= 0 ==> |r| == Min(stop + 1, |z|)
    ensures start == 0 ==> forall i :: 0 <= i < |r| ==> r[i] == z[|z| - 1 - i].member
    ensures start == 0 && stop < 0 ==> |r| == Max(|z| + stop + 1, 0)
  {
    var len := |z|;
    var from := if start < 0 then len + start else start;
    var to := if stop < 0 then len + stop else stop;
    var lo := if from < 0 then 0 else from;
    if lo > to || lo >= len then []
    else
      var hi := if to >= len then len - 1 else to;
      RanksDown(z, lo, hi)
  }

  /** Members at ranks lo..hi counted from the top. */
  function RanksDown(z: ZSet, lo: nat, hi: nat): (r: seq<string>)
    requires lo <= hi < |z|
    ensures |r| == hi - lo + 1
    ensures forall i :: 0 <= i < |r| ==> r[i] == z[|z| - 1 - (lo + i)].member
    ensures forall x :: x in r ==> x in Members(z)
  {
    var r := seq(hi - lo + 1, i requires 0 <= i < hi - lo + 1 => z[|z| - 1 - (lo + i)].member);
    assert forall x :: x in r ==> x in Members(z) by {
      forall x | x in r ensures x in Members(z) {
        var i :| 0 <= i < |r| && r[i] == x;
        assert z[|z| - 1 - (lo + i)] in z;
      }
    }
    r
  }
}
