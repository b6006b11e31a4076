/** The health-condition part of the script: the four optional text inputs are
    filtered down to the non-empty ones, and those are joined into the text the
    prompt embeds, with the literal "None" standing in when nothing is left. */
module HealthConditions {
  import opened Strings

  const Separator := ", "
  const NoConditions := "None"

  /** The entries of `inputs` that are not the empty string, in input order. */
  function NonEmpty(inputs: seq<string>): (conditions: seq<string>)
    ensures |conditions| <= |inputs|
    ensures forall i :: 0 <= i < |conditions| ==> conditions[i] != ""
    ensures forall x :: x in conditions <==> x in inputs && x != ""
  {
    if inputs == [] then []
    else
      var init, last := inputs[..|inputs| - 1], inputs[|inputs| - 1];
      LastSplit(inputs);
      NonEmpty(init) + (if last != "" then [last] else [])
  }

  /** Filtering keeps order: filtering a concatenation concatenates the filtered halves. */
  lemma {:induction false} NonEmptyAppend(a: seq<string>, b: seq<string>)
    ensures NonEmpty(a + b) == NonEmpty(a) + NonEmpty(b)
  {
    if b == [] {
      AppendEmpty(a);
    } else {
      var init, last := b[..|b| - 1], b[|b| - 1];
      NonEmptyAppend(a, init);
      LastSplit(b);
      AppendAssoc(a, init, [last]);
      SnocParts(a + init, last);
    }
  }

  /** A list none of whose entries is empty passes through the filter unchanged. */
  lemma {:induction false} NonEmptyKeepsAll(inputs: seq<string>)
    requires forall i :: 0 <= i < |inputs| ==> inputs[i] != ""
    ensures NonEmpty(inputs) == inputs
  {
    if inputs != [] {
      NonEmptyKeepsAll(inputs[..|inputs| - 1]);
    }
  }

  /** Lines 73-81: the four inputs are appended to a list, then every entry
      that is not "" is appended, in order, to the condition list. */
  method CollectConditions(input1: string, input2: string, input3: string, input4: string)
    returns (conditions: seq<string>)
    ensures conditions == NonEmpty([input1, input2, input3, input4])
    ensures |conditions| <= 4
    ensures conditions == [] <==> input1 == input2 == input3 == input4 == ""
  {
    var inputs: seq<string> := [];
    inputs := inputs + [input1];
    inputs := inputs + [input2];
    inputs := inputs + [input3];
    inputs := inputs + [input4];
    conditions := [];
    for i := 0 to |inputs|
      invariant conditions == NonEmpty(inputs[..i])
    {
      PrefixSnoc(inputs, i);
      SnocParts(inputs[..i], inputs[i]);
      if inputs[i] != "" {
        conditions := conditions + [inputs[i]];
      }
    }
    AppendEmpty(inputs);
    assert inputs == [input1, input2, input3, input4];
    assert input1 in inputs && input2 in inputs && input3 in inputs && input4 in inputs;
    if conditions != [] {
      assert conditions[0] in inputs && conditions[0] != "";
    }
  }

  /** The condition text as intended: the entries joined by ", ", or "None"
      when that join is empty. */
  function JoinedText(conditions: seq<string>): string
  {
    var joined := Join(conditions, Separator);
    if joined == "" then NoConditions else joined
  }

  /** What one pass of the join loop at lines 84-88 appends for `entry`: the
      entry alone when it equals the list's last entry `last`, the entry and a
      separator otherwise. */
  function Piece(entry: string, last: string): string
  {
    if entry == last then entry else entry + Separator
  }

  /** The text the join loop accumulates over `conditions` when every entry is
      compared by value with `last`. */
  function AsWrittenJoin(conditions: seq<string>, last: string): string
  {
    if conditions == [] then ""
    else AsWrittenJoin(conditions[..|conditions| - 1], last) + Piece(conditions[|conditions| - 1], last)
  }

  /** The condition text lines 83-90 produce. */
  function AsWrittenText(conditions: seq<string>): string
  {
    var joined := if conditions == [] then "" else AsWrittenJoin(conditions, conditions[|conditions| - 1]);
    if joined == "" then NoConditions else joined
  }

  /** Lines 83-90 as written: each entry gets a separator unless it is EQUAL
      to the last entry, then "" becomes "None". */
  method JoinConditionsAsWritten(conditions: seq<string>) returns (text: string)
    ensures text == AsWrittenText(conditions)
  {
    text := "";
    for i := 0 to |conditions|
      invariant text == if conditions == [] then "" else AsWrittenJoin(conditions[..i], conditions[|conditions| - 1])
    {
      PrefixSnoc(conditions, i);
      SnocParts(conditions[..i], conditions[i]);
      if conditions[i] == conditions[|conditions| - 1] {
        text := text + conditions[i];
      } else {
        text := text + conditions[i] + Separator;
      }
    }
    AppendEmpty(conditions);
    if text == "" {
      text := NoConditions;
    }
  }

  /** The join loop with the last entry recognised by its position: every entry
      but the last is followed by a separator; "" becomes "None". */
  method JoinConditions(conditions: seq<string>) returns (text: string)
    ensures text == JoinedText(conditions)
    ensures conditions == [] ==> text == NoConditions
    ensures conditions != [] && conditions[|conditions| - 1] != "" ==>
      text == Join(conditions, Separator) && |conditions[|conditions| - 1]| <= |text| &&
      text[|text| - |conditions[|conditions| - 1]|..] == conditions[|conditions| - 1]
  {
    text := "";
    var n := |conditions|;
    for i := 0 to n
      invariant i < n ==> text + conditions[i] == Join(conditions[..i + 1], Separator)
      invariant i == n ==> text == Join(conditions, Separator)
    {
      if i == n - 1 {
        text := text + conditions[i];
        AppendEmpty(conditions);
      } else {
        ghost var done := conditions[..i + 1];
        PrefixSnoc(conditions, i + 1);
        JoinSnoc(done, Separator, conditions[i + 1]);
        text := text + conditions[i] + Separator;
      }
    }
    if text == "" {
      text := NoConditions;
    }
  }

  /** Lines 73-90 as written: the text is "None" when all four inputs are
      empty, and otherwise what the value-comparing join loop accumulates over
      the non-empty inputs -- never "". */
  method HealthConditionsTextAsWritten(input1: string, input2: string, input3: string, input4: string)
    returns (text: string)
    ensures text == AsWrittenText(NonEmpty([input1, input2, input3, input4]))
    ensures input1 == input2 == input3 == input4 == "" ==> text == NoConditions
    ensures !(input1 == input2 == input3 == input4 == "") ==> text != ""
    ensures var conditions := NonEmpty([input1, input2, input3, input4]);
      conditions != [] ==> text == AsWrittenJoin(conditions, conditions[|conditions| - 1])
  {
    var conditions := CollectConditions(input1, input2, input3, input4);
    text := JoinConditionsAsWritten(conditions);
    if conditions != [] {
      AsWrittenNeverEmpty(conditions);
    }
  }

  /** Lines 73-90 with the corrected, position-based join: the text is "None" exactly
      when all four inputs are empty, and otherwise the non-empty inputs, in
      order, joined by ", " -- never empty and ending with the last of them. */
  method HealthConditionsText(input1: string, input2: string, input3: string, input4: string)
    returns (text: string)
    ensures text == JoinedText(NonEmpty([input1, input2, input3, input4]))
    ensures input1 == input2 == input3 == input4 == "" ==> text == NoConditions
    ensures !(input1 == input2 == input3 == input4 == "") ==>
      text == Join(NonEmpty([input1, input2, input3, input4]), Separator) && text != ""
  {
    var conditions := CollectConditions(input1, input2, input3, input4);
    text := JoinConditions(conditions);
  }

  /** When no earlier entry equals the last one, the loop as written produces
      exactly the intended text. */
  lemma {:induction false} AsWrittenMatchesWhenLastDistinct(conditions: seq<string>)
    requires forall k :: 0 <= k < |conditions| - 1 ==> conditions[k] != conditions[|conditions| - 1]
    ensures AsWrittenText(conditions) == JoinedText(conditions)
  {
    if conditions != [] {
      var n := |conditions|;
      var last := conditions[n - 1];
      var init := conditions[..n - 1];
      AsWrittenJoinDistinct(init, last, last);
      LastSplit(conditions);
    }
  }

  /** Over entries that all differ from `last`, the loop as written appends a
      separator after each one; whatever follows then completes a proper join. */
  lemma {:induction false} AsWrittenJoinDistinct(entries: seq<string>, last: string, next: string)
    requires forall k :: 0 <= k < |entries| ==> entries[k] != last
    ensures AsWrittenJoin(entries, last) + next == Join(entries + [next], Separator)
  {
    if entries == [] {
      AppendEmpty([next]);
    } else {
      var n := |entries|;
      var init, final := entries[..n - 1], entries[n - 1];
      AsWrittenJoinDistinct(init, last, final);
      LastSplit(entries);
      var before := AsWrittenJoin(init, last);
      assert AsWrittenJoin(entries, last) == before + (final + Separator);
      JoinSnoc(entries, Separator, next);
      AppendAssoc(before, final, Separator);
    }
  }

  /** Length of the text the loop as written accumulates: every entry's
      characters, plus one two-character separator for each entry NOT equal
      to `last`. */
  lemma {:induction false} AsWrittenJoinLength(entries: seq<string>, last: string)
    ensures |AsWrittenJoin(entries, last)| == SumLengths(entries) + 2 * (|entries| - multiset(entries)[last])
  {
    if entries != [] {
      var n := |entries|;
      AsWrittenJoinLength(entries[..n - 1], last);
      LastSplit(entries);
    }
  }

  /** Even as written, a list whose last entry is not "" never reaches the
      "None" replacement: the text is what the loop accumulated, at least as
      long as all the entries together. */
  lemma AsWrittenNeverEmpty(conditions: seq<string>)
    requires conditions != [] && conditions[|conditions| - 1] != ""
    ensures var last := conditions[|conditions| - 1];
      AsWrittenText(conditions) == AsWrittenJoin(conditions, last) &&
      |AsWrittenText(conditions)| >= SumLengths(conditions) > 0
  {
    AsWrittenJoinLength(conditions, conditions[|conditions| - 1]);
  }

  /** Whenever an earlier entry repeats the (non-empty) last one, the loop as
      written loses at least one separator, so its text differs from the
      intended join. */
  lemma AsWrittenDiffersOnDuplicateOfLast(conditions: seq<string>, k: nat)
    requires k < |conditions| - 1
    requires conditions[k] == conditions[|conditions| - 1] != ""
    ensures AsWrittenText(conditions) != JoinedText(conditions)
  {
    var n := |conditions|;
    var last := conditions[n - 1];
    var init := conditions[..n - 1];
    assert conditions == init + [last];
    assert init[k] == last;
    assert multiset(init)[last] >= 1;
    assert multiset(conditions)[last] >= 2;
    AsWrittenJoinLength(conditions, last);
    JoinLength(conditions, Separator);
    assert |Separator| == 2;
    assert AsWrittenJoin(conditions, last) == AsWrittenJoin(init, last) + last;
  }

  /** The concrete case: entries "a", "b", "a" give "ab, a" as written, where
      "a, b, a" is intended. */
  lemma DuplicateOfLastExample()
    ensures AsWrittenText(["a", "b", "a"]) == "ab, a"
    ensures JoinedText(["a", "b", "a"]) == "a, b, a"
  {
    AsWrittenJoinThree("a", "b", "a", "a");
    JoinThree("a", "b", "a", Separator);
  }

  lemma AsWrittenJoinThree(x: string, y: string, z: string, last: string)
    ensures AsWrittenJoin([x, y, z], last) == Piece(x, last) + Piece(y, last) + Piece(z, last)
  {
    assert [x, y, z][..2] == [x, y];
    assert [x, y][..1] == [x];
    assert [x][..0] == [];
    AppendEmpty(Piece(x, last));
    assert AsWrittenJoin([x], last) == Piece(x, last);
    assert AsWrittenJoin([x, y], last) == Piece(x, last) + Piece(y, last);
  }

  lemma JoinThree(x: string, y: string, z: string, sep: string)
    ensures Join([x, y, z], sep) == x + sep + y + sep + z
  {
    assert [x, y, z][..2] == [x, y];
    assert [x, y][..1] == [x];
    assert Join([x], sep) == x;
    assert Join([x, y], sep) == x + sep + y;
  }
}
