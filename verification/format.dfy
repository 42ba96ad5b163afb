/** Output formatting, src/structs.rs:99 and 102-106: `join` with a
    separator, and the optional triple-backtick fence around the result. */
module Format {
  import opened Wrappers

  /** `slice.join(sep)`: the parts with `sep` between neighbours. */
  function Join(parts: seq<string>, sep: string): (s: string)
    ensures |parts| == 0 ==> s == ""
    ensures |parts| > 1 ==> parts[0] + sep <= s
    ensures |parts| > 0 ==> parts[0] <= s
    ensures |parts| > 0 ==> |parts[|parts| - 1]| <= |s| && s[|s| - |parts[|parts| - 1]|..] == parts[|parts| - 1]
    decreases |parts|
  {
    if |parts| == 0 then ""
    else if |parts| == 1 then parts[0]
    else
      var head := parts[0] + sep;
      var rest := Join(parts[1..], sep);
      var last := parts[|parts| - 1];
      assert parts[1..][|parts[1..]| - 1] == last;
      assert (head + rest)[|head + rest| - |last|..] == rest[|rest| - |last|..];
      head + rest
  }

  /** Cuts `text` at every occurrence of `sep`, scanning left to right; the
      inverse of `Join` on parts that cannot start a separator. */
  function Split(text: string, sep: string): (parts: seq<string>)
    requires |sep| > 0
    ensures |parts| >= 1
    decreases |text|
  {
    if |text| == 0 then [""]
    else if sep <= text then [""] + Split(text[|sep|..], sep)
    else
      var rest := Split(text[1..], sep);
      [[text[0]] + rest[0]] + rest[1..]
  }

  /** No part holds the first character of the separator, so no separator
      can start inside a part. */
  predicate SeparatorFree(parts: seq<string>, sep: string)
    requires |sep| > 0
  {
    forall i :: 0 <= i < |parts| ==> sep[0] !in parts[i]
  }

  lemma {:induction false} SplitPart(x: string, sep: string)
    requires |sep| > 0 && sep[0] !in x
    ensures Split(x, sep) == [x]
    decreases |x|
  {
    if |x| > 0 {
      assert !(sep <= x);
      SplitPart(x[1..], sep);
      assert [x[0]] + x[1..] == x;
    }
  }

  lemma {:induction false} SplitAfterPart(x: string, sep: string, rest: string)
    requires |sep| > 0 && sep[0] !in x
    ensures Split(x + sep + rest, sep) == [x] + Split(rest, sep)
    decreases |x|
  {
    var text := x + sep + rest;
    if |x| == 0 {
      assert text == sep + rest;
      assert sep <= text;
      assert text[|sep|..] == rest;
    } else {
      assert text[0] == x[0];
      assert !(sep <= text);
      assert text[1..] == x[1..] + sep + rest;
      SplitAfterPart(x[1..], sep, rest);
      assert [x[0]] + x[1..] == x;
    }
  }

  /** Splitting a join gives the parts back, for a non-empty list of
      separator-free parts. The empty list is the exception: it joins to
      `""`, which is also the join of `[""]`. */
  lemma {:induction false} SplitJoin(parts: seq<string>, sep: string)
    requires |sep| > 0 && |parts| > 0 && SeparatorFree(parts, sep)
    ensures Split(Join(parts, sep), sep) == parts
    decreases |parts|
  {
    if |parts| == 1 {
      SplitPart(parts[0], sep);
    } else {
      SplitJoin(parts[1..], sep);
      SplitAfterPart(parts[0], sep, Join(parts[1..], sep));
      assert [parts[0]] + parts[1..] == parts;
    }
  }

  /** The fence line of src/structs.rs:103. */
  const Fence: string := "```"

  /** `format!("```\n{}\n```", body)`. */
  function Fenced(body: string): (text: string)
    ensures |text| == |body| + 8
  {
    Fence + "\n" + body + "\n" + Fence
  }

  /** Strips the fixed four-character prefix and suffix, when both are
      present. */
  function Unfence(text: string): (body: Option<string>)
    ensures body.Some? ==> |body.value| + 8 == |text|
  {
    if |text| >= 8 && text[..4] == Fence + "\n" && text[|text| - 4..] == "\n" + Fence
    then Some(text[4..|text| - 4])
    else None
  }

  lemma UnfenceFenced(body: string)
    ensures Unfence(Fenced(body)) == Some(body)
  {
    var text := Fenced(body);
    assert text[..4] == Fence + "\n";
    assert text[|text| - 4..] == "\n" + Fence;
    assert text[4..|text| - 4] == body;
  }

  lemma FencedUnfence(text: string)
    requires Unfence(text).Some?
    ensures Fenced(Unfence(text).value) == text
  {
  }

  /** The `mods` text of src/structs.rs:102-106. */
  function ModsText(modList: seq<string>, backticks: bool): (text: string)
    ensures backticks ==> Unfence(text) == Some(Join(modList, ";"))
    ensures !backticks ==> text == Join(modList, ";")
  {
    var joined := Join(modList, ";");
    UnfenceFenced(joined);
    if backticks then Fenced(joined) else joined
  }
}
