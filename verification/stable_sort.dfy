/** The sort of src/structs.rs:90, `sort_by(|a, b| a.to_lowercase().cmp(&b.to_lowercase()))`:
    a stable sort keyed by each string's lower-case form. It is modelled by a
    stable insertion sort, and `SortByKeyCharacterized` shows that, for the
    ASCII key of `Key`, any stable sort gives the same result. */
module StableSort {
  import opened LexOrder
  import Chars

  /** The sort key: the lower-case form of the identifier. */
  function Key(s: string): (k: string)
    ensures |k| == |s|
    ensures forall i :: 0 <= i < |k| ==> !Chars.IsUpper(k[i])
    ensures forall i :: 0 <= i < |s| && Chars.IsUpper(s[i]) ==> k[i] as int == s[i] as int + 32
    ensures forall i :: 0 <= i < |s| && !Chars.IsUpper(s[i]) ==> k[i] == s[i]
  {
    Chars.Lower(s)
  }

  /** `a` may precede `b` in sorted output. */
  predicate KeyLe(a: string, b: string) {
    LexLe(Key(a), Key(b))
  }

  predicate SortedByKey(s: seq<string>) {
    forall i, j :: 0 <= i < j < |s| ==> KeyLe(s[i], s[j])
  }

  /** The strings of `s` whose key is `k`, in their order in `s`. */
  function WithKey(s: seq<string>, k: string): seq<string> {
    if |s| == 0 then []
    else (if Key(s[0]) == k then [s[0]] else []) + WithKey(s[1..], k)
  }

  lemma {:induction false} WithKeyMember(s: seq<string>, k: string, x: string)
    ensures x in WithKey(s, k) <==> x in s && Key(x) == k
    decreases |s|
  {
    if |s| > 0 {
      WithKeyMember(s[1..], k, x);
      assert s == [s[0]] + s[1..];
    }
  }

  lemma {:induction false} WithKeyCount(s: seq<string>, x: string)
    ensures multiset(WithKey(s, Key(x)))[x] == multiset(s)[x]
    decreases |s|
  {
    if |s| > 0 {
      WithKeyCount(s[1..], x);
      assert s == [s[0]] + s[1..];
    }
  }

  /** `output` keeps the relative order of every group of strings with
      equal keys in `input`, and adds or loses none of them. */
  ghost predicate Stable(input: seq<string>, output: seq<string>) {
    forall k :: WithKey(output, k) == WithKey(input, k)
  }

  lemma WithKeyCons(a: string, s: seq<string>, k: string)
    ensures WithKey([a] + s, k) == (if Key(a) == k then [a] else []) + WithKey(s, k)
  {
  }

  /** Places `x` after every element whose key is strictly smaller and
      before the first whose key is not. */
  function Insert(x: string, s: seq<string>): (r: seq<string>)
    ensures multiset(r) == multiset(s) + multiset{x}
  {
    if |s| == 0 then [x]
    else if KeyLe(x, s[0]) then [x] + s
    else
      assert s == [s[0]] + s[1..];
      [s[0]] + Insert(x, s[1..])
  }

  lemma {:induction false} InsertSorted(x: string, s: seq<string>)
    requires SortedByKey(s)
    ensures SortedByKey(Insert(x, s))
    decreases |s|
  {
    if |s| == 0 {
    } else if KeyLe(x, s[0]) {
      var r := [x] + s;
      forall i, j | 0 <= i < j < |r|
        ensures KeyLe(r[i], r[j])
      {
        if i == 0 && j > 1 {
          LexLeTransitive(Key(x), Key(s[0]), Key(s[j - 1]));
        }
      }
    } else {
      InsertSorted(x, s[1..]);
      LexLeTotal(Key(x), Key(s[0]));
      var t := Insert(x, s[1..]);
      HeadBelowInsert(x, s, t);
      var r := [s[0]] + t;
      forall i, j | 0 <= i < j < |r|
        ensures KeyLe(r[i], r[j])
      {
        if i == 0 {
          assert r[j] == t[j - 1];
        } else {
          assert r[i] == t[i - 1] && r[j] == t[j - 1];
        }
      }
    }
  }

  /** The head of a sorted `s` may precede everything in `t`, the result of
      inserting some `x` that may follow it into the rest of `s`. */
  lemma HeadBelowInsert(x: string, s: seq<string>, t: seq<string>)
    requires |s| > 0 && SortedByKey(s) && KeyLe(s[0], x)
    requires multiset(t) == multiset(s[1..]) + multiset{x}
    ensures forall j :: 0 <= j < |t| ==> KeyLe(s[0], t[j])
  {
    forall j | 0 <= j < |t|
      ensures KeyLe(s[0], t[j])
    {
      assert t[j] in multiset(t);
      if t[j] != x {
        assert t[j] in s[1..];
        var m :| 0 <= m < |s[1..]| && s[1..][m] == t[j];
        assert s[m + 1] == t[j];
      }
    }
  }

  /** Inserting `x` puts it at the front of its key group; since the sort
      inserts the elements of its input from the last one backwards, this
      keeps every group in input order. */
  lemma {:induction false} InsertWithKey(x: string, s: seq<string>, k: string)
    ensures WithKey(Insert(x, s), k) == (if Key(x) == k then [x] else []) + WithKey(s, k)
    decreases |s|
  {
    if |s| == 0 {
      assert Insert(x, s) == [x] + s;
      WithKeyCons(x, s, k);
    } else if KeyLe(x, s[0]) {
      assert Insert(x, s) == [x] + s;
      WithKeyCons(x, s, k);
    } else {
      InsertWithKey(x, s[1..], k);
      InsertPastHead(x, s, k);
    }
  }

  /** The step of `InsertWithKey` where `x` moves past the head of `s`:
      the head has a different key, so the two cannot swap within a group. */
  lemma InsertPastHead(x: string, s: seq<string>, k: string)
    requires |s| > 0 && !KeyLe(x, s[0])
    requires WithKey(Insert(x, s[1..]), k) == (if Key(x) == k then [x] else []) + WithKey(s[1..], k)
    ensures WithKey(Insert(x, s), k) == (if Key(x) == k then [x] else []) + WithKey(s, k)
  {
    KeyLeOfEqualKeys(x, s[0]);
    InsertPastSmaller(x, s);
    assert [s[0]] + s[1..] == s;
    WithKeyPastHead(x, s[0], Insert(x, s[1..]), s[1..], k);
  }

  /** Equal keys compare `<=` both ways. */
  lemma KeyLeOfEqualKeys(a: string, b: string)
    ensures Key(a) == Key(b) ==> KeyLe(a, b)
  {
    LexLeReflexive(Key(a));
  }

  /** `x` moves past a head whose key is strictly smaller. */
  lemma InsertPastSmaller(x: string, s: seq<string>)
    requires |s| > 0 && !KeyLe(x, s[0])
    ensures Insert(x, s) == [s[0]] + Insert(x, s[1..])
  {
  }

  /** Prepending `h` to both sides of a key-group equation, when `h`'s key
      differs from `x`'s. */
  lemma WithKeyPastHead(x: string, h: string, t: seq<string>, u: seq<string>, k: string)
    requires Key(h) != Key(x)
    requires WithKey(t, k) == (if Key(x) == k then [x] else []) + WithKey(u, k)
    ensures WithKey([h] + t, k) == (if Key(x) == k then [x] else []) + WithKey([h] + u, k)
  {
    WithKeyCons(h, t, k);
    WithKeyCons(h, u, k);
    if Key(x) == k {
      assert WithKey([h] + u, k) == WithKey(u, k);
    }
  }

  /** Stable insertion sort by lower-case key. */
  function SortByKey(s: seq<string>): (r: seq<string>)
    ensures multiset(r) == multiset(s)
    ensures SortedByKey(r)
  {
    if |s| == 0 then []
    else
      assert s == [s[0]] + s[1..];
      InsertSorted(s[0], SortByKey(s[1..]));
      Insert(s[0], SortByKey(s[1..]))
  }

  /** Equal-key elements leave the sort in the order they entered it. */
  lemma {:induction false} SortByKeyStable(s: seq<string>)
    ensures Stable(s, SortByKey(s))
    decreases |s|
  {
    if |s| > 0 {
      SortByKeyStable(s[1..]);
      forall k
        ensures WithKey(SortByKey(s), k) == WithKey(s, k)
      {
        InsertWithKey(s[0], SortByKey(s[1..]), k);
        WithKeyCons(s[0], s[1..], k);
        assert [s[0]] + s[1..] == s;
      }
    }
  }

  /** Stability alone already forces a permutation. */
  lemma StableIsPermutation(input: seq<string>, output: seq<string>)
    requires Stable(input, output)
    ensures multiset(output) == multiset(input)
  {
    forall x
      ensures multiset(output)[x] == multiset(input)[x]
    {
      WithKeyCount(output, x);
      WithKeyCount(input, x);
    }
  }

  /** Two key-sorted sequences with the same key groups are equal. */
  lemma {:induction false} StableSortUnique(r1: seq<string>, r2: seq<string>)
    requires SortedByKey(r1) && SortedByKey(r2)
    requires forall k :: WithKey(r1, k) == WithKey(r2, k)
    ensures r1 == r2
    decreases |r1|
  {
    if |r1| == 0 {
      if |r2| > 0 {
        WithKeyMember(r2, Key(r2[0]), r2[0]);
      }
    } else if |r2| == 0 {
      WithKeyMember(r1, Key(r1[0]), r1[0]);
    } else {
      var a, b := r1[0], r2[0];
      WithKeyMember(r1, Key(a), a);
      WithKeyMember(r2, Key(a), a);
      WithKeyMember(r2, Key(b), b);
      WithKeyMember(r1, Key(b), b);
      LexLeReflexive(Key(a));
      LexLeReflexive(Key(b));
      assert KeyLe(b, a);
      assert KeyLe(a, b);
      LexLeAntisymmetric(Key(a), Key(b));
      assert [a] + r1[1..] == r1;
      assert [b] + r2[1..] == r2;
      assert Key(a) == Key(b);
      WithKeyCons(a, r1[1..], Key(a));
      WithKeyCons(b, r2[1..], Key(a));
      var w1, w2 := WithKey(r1[1..], Key(a)), WithKey(r2[1..], Key(a));
      assert WithKey(r1, Key(a)) == [a] + w1;
      assert WithKey(r2, Key(a)) == [b] + w2;
      assert WithKey(r1, Key(a)) == WithKey(r2, Key(a));
      assert ([a] + w1)[0] == a && ([b] + w2)[0] == b;
      forall k
        ensures WithKey(r1[1..], k) == WithKey(r2[1..], k)
      {
        WithKeyCons(a, r1[1..], k);
        WithKeyCons(b, r2[1..], k);
        var front: seq<string> := if Key(a) == k then [a] else [];
        assert WithKey(r1, k) == WithKey(r2, k);
        assert WithKey(r1[1..], k) == WithKey(r1, k)[|front|..];
        assert WithKey(r2[1..], k) == WithKey(r2, k)[|front|..];
      }
      forall i, j | 0 <= i < j < |r1[1..]|
        ensures KeyLe(r1[1..][i], r1[1..][j])
      {
        assert r1[1..][i] == r1[i + 1] && r1[1..][j] == r1[j + 1];
      }
      forall i, j | 0 <= i < j < |r2[1..]|
        ensures KeyLe(r2[1..][i], r2[1..][j])
      {
        assert r2[1..][i] == r2[i + 1] && r2[1..][j] == r2[j + 1];
      }
      StableSortUnique(r1[1..], r2[1..]);
    }
  }

  /** Every stable key-sorted rearrangement of `s` is `SortByKey(s)`, so the
      insertion sort stands for Rust's stable `sort_by`, for the ASCII key
      of `Key`. */
  lemma SortByKeyCharacterized(s: seq<string>, r: seq<string>)
    requires SortedByKey(r) && Stable(s, r)
    ensures r == SortByKey(s)
  {
    SortByKeyStable(s);
    StableSortUnique(r, SortByKey(s));
  }
}
