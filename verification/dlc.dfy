/** Official-content (DLC) resolution, src/structs.rs:67-74: each display
    name is looked up in `dlc_prefixes`; a hit pushes the mapped identifier,
    a miss pushes nothing. */
module Dlc {
  import Seqs

  /** The identifiers the DLC loop pushes for `names`, in document order. */
  function Resolve(names: seq<string>, table: map<string, string>): (ids: seq<string>)
    ensures |ids| <= |names|
    ensures forall i :: 0 <= i < |ids| ==> ids[i] in table.Values
    ensures forall n :: n in names && n in table ==> table[n] in ids
    ensures (forall n :: n in names ==> n !in table) ==> ids == []
  {
    if |names| == 0 then []
    else (if names[0] in table then [table[names[0]]] else []) + Resolve(names[1..], table)
  }

  /** Resolving a concatenation resolves each part. */
  lemma {:induction false} ResolveAppend(a: seq<string>, b: seq<string>, table: map<string, string>)
    ensures Resolve(a + b, table) == Resolve(a, table) + Resolve(b, table)
    decreases |a|
  {
    if |a| == 0 {
      assert a + b == b;
    } else {
      assert (a + b)[1..] == a[1..] + b;
      ResolveAppend(a[1..], b, table);
    }
  }

  /** One more name resolves to at most its own mapped value. */
  lemma ResolveStep(names: seq<string>, i: nat, table: map<string, string>)
    requires i < |names|
    ensures Resolve(names[..i + 1], table)
            == Resolve(names[..i], table) + (if names[i] in table then [table[names[i]]] else [])
  {
    ResolveAppend(names[..i], [names[i]], table);
    assert names[..i + 1] == names[..i] + [names[i]];
    assert [names[i]][1..] == [];
  }

  /** The names the table knows. */
  function Known(table: map<string, string>): string -> bool {
    n => n in table
  }

  /** The table lookup; the fallback is never reached on `Known` names. */
  function Lookup(table: map<string, string>): string -> string {
    n => if n in table then table[n] else ""
  }

  /** Resolution is "keep the known names, then look each one up": a present
      key contributes exactly its mapped value, an absent key nothing. */
  lemma {:induction false} ResolveIsLookupOfKnown(names: seq<string>, table: map<string, string>)
    ensures Resolve(names, table) == Seqs.Map(Seqs.Filter(names, Known(table)), Lookup(table))
    decreases |names|
  {
    if |names| > 0 {
      ResolveIsLookupOfKnown(names[1..], table);
      var rest := Seqs.Filter(names[1..], Known(table));
      if names[0] in table {
        assert Seqs.Filter(names, Known(table)) == [names[0]] + rest;
        Seqs.MapAppend([names[0]], rest, Lookup(table));
      } else {
        assert Seqs.Filter(names, Known(table)) == rest;
      }
    }
  }

  /** The loop of src/structs.rs:67-74, pushing onto a buffer that may
      already hold entries. */
  method PushResolved(buffer: seq<string>, names: seq<string>, table: map<string, string>)
    returns (out: seq<string>)
    ensures out == buffer + Resolve(names, table)
    ensures |out| <= |buffer| + |names|
  {
    out := buffer;
    for i := 0 to |names|
      invariant out == buffer + Resolve(names[..i], table)
    {
      ResolveStep(names, i, table);
      if names[i] in table {
        out := out + [table[names[i]]];
      }
    }
    assert names[..|names|] == names;
  }
}
