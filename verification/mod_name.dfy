/** Community mod names, src/structs.rs:77-88: each display name keeps only
    its alphanumeric characters, gets an `@` prefix, and is pushed unless
    the ignore list holds it. */
module ModName {
  import Seqs
  import Chars

  /** `mod_name.retain(|c| c.is_alphanumeric())`. */
  function Retain(name: string): (r: string)
    ensures |r| <= |name|
    ensures forall i :: 0 <= i < |r| ==> Chars.IsAlphanumeric(r[i])
  {
    Seqs.Filter(name, Chars.IsAlphanumeric)
  }

  /** `Retain` keeps exactly the alphanumeric characters, each as often as
      it occurs, in their original order. */
  lemma RetainFacts(name: string)
    ensures Seqs.IsSubseq(Retain(name), name)
    ensures forall c :: multiset(Retain(name))[c] == if Chars.IsAlphanumeric(c) then multiset(name)[c] else 0
  {
    Seqs.FilterFacts(name, Chars.IsAlphanumeric);
  }

  /** Retaining is applied character by character. */
  lemma RetainConcat(a: string, b: string)
    ensures Retain(a + b) == Retain(a) + Retain(b)
  {
    Seqs.FilterAppend(a, b, Chars.IsAlphanumeric);
  }

  /** A name made only of alphanumeric characters is kept unchanged. */
  lemma {:induction false} RetainKeepsAlphanumeric(name: string)
    requires forall i :: 0 <= i < |name| ==> Chars.IsAlphanumeric(name[i])
    ensures Retain(name) == name
    decreases |name|
  {
    if |name| > 0 {
      RetainKeepsAlphanumeric(name[1..]);
      assert [name[0]] + name[1..] == name;
    }
  }

  /** The identifier for one display name, written as the source does it:
      retain, then prefix `@` unless the result already starts with `@`.
      Retaining removes every `@`, so the second branch is never taken and
      every name, even one with no alphanumeric character, becomes `@`
      followed by its alphanumeric characters. */
  function Normalize(name: string): (id: string)
    ensures id == "@" + Retain(name)
    ensures |id| >= 1 && id[0] == '@'
    ensures forall i :: 1 <= i < |id| ==> Chars.IsAlphanumeric(id[i])
  {
    var stripped := Retain(name);
    if |stripped| > 0 && stripped[0] == '@' then stripped else "@" + stripped
  }

  /** An identifier holds exactly one `@`, its first character. */
  lemma NormalizeHasOneAt(name: string)
    ensures '@' !in Normalize(name)[1..]
    ensures multiset(Normalize(name))['@'] == 1
  {
  }

  /** Retaining twice keeps the same characters. */
  lemma {:induction false} RetainIdempotent(name: string)
    ensures Retain(Retain(name)) == Retain(name)
    decreases |name|
  {
    if |name| > 0 {
      RetainIdempotent(name[1..]);
      var rest := Retain(name[1..]);
      if Chars.IsAlphanumeric(name[0]) {
        assert Retain(name) == [name[0]] + rest;
        assert ([name[0]] + rest)[1..] == rest;
      }
    }
  }

  /** Normalising an identifier gives the identifier back. */
  lemma NormalizeIdempotent(name: string)
    ensures Normalize(Normalize(name)) == Normalize(name)
  {
    var r := Retain(name);
    RetainConcat("@", r);
    Seqs.FilterSingleton('@', Chars.IsAlphanumeric);
    RetainKeepsAlphanumeric(r);
  }

  /** The identifiers the community loop pushes for `names`, in document
      order. */
  function Community(names: seq<string>, ignored: seq<string>): (ids: seq<string>)
    ensures |ids| <= |names|
    ensures forall i :: 0 <= i < |ids| ==> ids[i] !in ignored
  {
    if |names| == 0 then []
    else
      var id := Normalize(names[0]);
      (if id in ignored then [] else [id]) + Community(names[1..], ignored)
  }

  /** Keeps the identifiers that are not on the ignore list. */
  function NotIgnored(ignored: seq<string>): string -> bool {
    id => id !in ignored
  }

  /** The community loop is "normalise every name, then drop the ignored
      identifiers". */
  lemma {:induction false} CommunityIsFilteredNormalization(names: seq<string>, ignored: seq<string>)
    ensures Community(names, ignored) == Seqs.Filter(Seqs.Map(names, Normalize), NotIgnored(ignored))
    decreases |names|
  {
    if |names| > 0 {
      CommunityIsFilteredNormalization(names[1..], ignored);
      var id := Normalize(names[0]);
      var all := Seqs.Map(names, Normalize);
      assert all == [id] + Seqs.Map(names[1..], Normalize);
      Seqs.FilterAppend([id], Seqs.Map(names[1..], Normalize), NotIgnored(ignored));
      Seqs.FilterSingleton(id, NotIgnored(ignored));
    }
  }

  /** Every normalised name starts with `@`. */
  lemma NormalizedStartWithAt(names: seq<string>)
    ensures forall x :: x in Seqs.Map(names, Normalize) ==> |x| >= 1 && x[0] == '@'
  {
  }

  /** No pushed community identifier is on the ignore list, and each is
      `@`-prefixed. */
  lemma CommunityExcludesIgnored(names: seq<string>, ignored: seq<string>)
    ensures forall x :: x in Community(names, ignored) ==> x !in ignored && |x| >= 1 && x[0] == '@'
  {
    CommunityIsFilteredNormalization(names, ignored);
    Seqs.FilterFacts(Seqs.Map(names, Normalize), NotIgnored(ignored));
    NormalizedStartWithAt(names);
  }

  /** Every display name whose identifier is not ignored is represented. */
  lemma CommunityKeepsUnignored(names: seq<string>, ignored: seq<string>)
    ensures forall n :: n in names && Normalize(n) !in ignored ==> Normalize(n) in Community(names, ignored)
  {
    var all := Seqs.Map(names, Normalize);
    CommunityIsFilteredNormalization(names, ignored);
    Seqs.FilterFacts(all, NotIgnored(ignored));
    assert forall n :: n in names ==> Normalize(n) in all;
  }

  /** The pushed identifiers follow document order, at most one per name. */
  lemma CommunityInOrder(names: seq<string>, ignored: seq<string>)
    ensures |Community(names, ignored)| <= |names|
    ensures Seqs.IsSubseq(Community(names, ignored), Seqs.Map(names, Normalize))
  {
    CommunityIsFilteredNormalization(names, ignored);
    Seqs.FilterFacts(Seqs.Map(names, Normalize), NotIgnored(ignored));
  }

  /** One more display name adds its identifier at the end, unless ignored. */
  lemma {:induction false} CommunitySnoc(names: seq<string>, n: string, ignored: seq<string>)
    ensures Community(names + [n], ignored)
         == Community(names, ignored) + (if Normalize(n) in ignored then [] else [Normalize(n)])
    decreases |names|
  {
    if |names| == 0 {
      assert names + [n] == [n];
      assert [n][1..] == [];
    } else {
      assert (names + [n])[1..] == names[1..] + [n];
      CommunitySnoc(names[1..], n, ignored);
    }
  }

  /** The loop of src/structs.rs:77-88, pushing onto the buffer that already
      holds the DLC identifiers. */
  method PushCommunity(buffer: seq<string>, names: seq<string>, ignored: seq<string>)
    returns (out: seq<string>)
    ensures out == buffer + Community(names, ignored)
  {
    out := buffer;
    for i := 0 to |names|
      invariant out == buffer + Community(names[..i], ignored)
    {
      var modName := Retain(names[i]);
      if !(|modName| > 0 && modName[0] == '@') {
        modName := "@" + modName;
      }
      assert modName == Normalize(names[i]);
      CommunitySnoc(names[..i], names[i], ignored);
      assert names[..i] + [names[i]] == names[..i + 1];
      if modName !in ignored {
        out := out + [modName];
      }
    }
    assert names[..|names|] == names;
  }
}
