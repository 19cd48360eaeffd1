/** The selection logic of the `MultiSelect` picker: toggling an id in the
    selected list, and the one-line label shown for a selection. The list the
    component hands to `onSelectionChange` is the result of `ToggleOption`. */
module MultiSelect {
  import opened Sequences

  /** One choice offered by the picker. */
  datatype Option = Option(id: string, name: string)

  /** A property that may be left undefined by the caller. */
  datatype Optional<T> = Undefined | Defined(value: T)

  const DefaultPlaceholder: string := "Select options..."
  const Separator: string := ", "

  /** The placeholder prop after JavaScript's default-parameter rule. */
  function EffectivePlaceholder(placeholder: Optional<string>): (r: string)
    ensures placeholder.Undefined? ==> r == "Select options..."
    ensures placeholder.Defined? ==> r == placeholder.value
  {
    match placeholder
    case Undefined => DefaultPlaceholder
    case Defined(p) => p
  }

  /** The predicate `(v) => v !== id`. */
  function IsNot(id: string): string -> bool {
    (v: string) => v != id
  }

  /** The predicate `(opt) => selectedValues.includes(opt.id)`. */
  function IdIn(selected: seq<string>): Option -> bool {
    (o: Option) => o.id in selected
  }

  /** The list emitted when the option `id` is tapped: every copy of a
      selected id is removed, an unselected id is appended at the end. */
  function ToggleOption(selected: seq<string>, id: string): (r: seq<string>)
    ensures id in selected ==>
      id !in r && IsSubsequence(r, selected) &&
      forall x {:trigger multiset(r)[x]} :: x != id ==> multiset(r)[x] == multiset(selected)[x]
    ensures id !in selected ==> r == selected + [id] && |r| == |selected| + 1
    ensures id in r <==> id !in selected
    ensures forall x {:trigger x in r} :: x != id ==> (x in r <==> x in selected)
  {
    if id in selected then Filter(selected, IsNot(id)) else selected + [id]
  }

  /** Removing every copy of `id` leaves exactly the subsequence described
      by Filter's contract, whatever the list looks like. */
  lemma ToggleRemovesAll(selected: seq<string>, id: string)
    requires id in selected
    ensures multiset(ToggleOption(selected, id)) == multiset(selected)[id := 0]
  {
  }

  /** Toggling an unselected id twice gives back the original list. */
  lemma {:induction false} ToggleTwiceAbsent(selected: seq<string>, id: string)
    requires id !in selected
    ensures ToggleOption(ToggleOption(selected, id), id) == selected
  {
    var s' := selected + [id];
    assert ToggleOption(selected, id) == s';
    SubsequenceRefl(selected);
    SubsequenceOfAppend(selected, selected, id);
    forall x ensures multiset(selected)[x] == if IsNot(id)(x) then multiset(s')[x] else 0 {
      assert multiset(s')[x] == multiset(selected)[x] + (if x == id then 1 else 0);
    }
    FilterUnique(s', IsNot(id), selected);
  }

  /** Toggling the only copy of a selected id removes just that element. */
  lemma ToggleRemovesSingle(selected: seq<string>, i: nat)
    requires i < |selected|
    requires multiset(selected)[selected[i]] == 1
    ensures ToggleOption(selected, selected[i]) == selected[..i] + selected[i+1..]
  {
    var id := selected[i];
    var rest := selected[..i] + selected[i+1..];
    assert selected == selected[..i] + [id] + selected[i+1..];
    assert multiset(selected) == multiset(rest) + multiset{id};
    SubsequenceDeleteAt(selected, i);
    FilterUnique(selected, IsNot(id), rest);
  }

  /** In a list holding `selected[i]` once, no other index holds it. */
  lemma SingleOccurrence(selected: seq<string>, i: nat, j: nat)
    requires i < |selected| && j < |selected| && i != j
    requires multiset(selected)[selected[i]] == 1
    ensures selected[j] != selected[i]
  {
    var lo, hi := if i < j then i else j, if i < j then j else i;
    var s := selected;
    assert s == s[..lo] + [s[lo]] + s[lo+1..hi] + [s[hi]] + s[hi+1..];
    assert multiset(s) == multiset(s[..lo]) + multiset{s[lo]} + multiset(s[lo+1..hi])
                        + multiset{s[hi]} + multiset(s[hi+1..]);
  }

  /** Toggling a selected id that occurs once, at index `i`, twice does not
      restore the list: the id moves to the end. */
  lemma ToggleTwicePresentOnce(selected: seq<string>, i: nat)
    requires i < |selected|
    requires multiset(selected)[selected[i]] == 1
    ensures ToggleOption(ToggleOption(selected, selected[i]), selected[i])
         == selected[..i] + selected[i+1..] + [selected[i]]
    ensures i < |selected| - 1 ==>
      ToggleOption(ToggleOption(selected, selected[i]), selected[i]) != selected
  {
    var id := selected[i];
    var rest := selected[..i] + selected[i+1..];
    ToggleRemovesSingle(selected, i);
    assert id !in rest;
    if i < |selected| - 1 {
      var last := |selected| - 1;
      SingleOccurrence(selected, i, last);
      assert (rest + [id])[last] != selected[last];
    }
  }

  /** The options whose id is selected, in the order of `options`. */
  function SelectedOptions(options: seq<Option>, selected: seq<string>): (r: seq<Option>)
    ensures IsSubsequence(r, options)
    ensures forall o {:trigger multiset(r)[o]} ::
      multiset(r)[o] == if o.id in selected then multiset(options)[o] else 0
  {
    Filter(options, IdIn(selected))
  }

  /** `options.map((opt) => opt.name)`. */
  function Names(options: seq<Option>): (r: seq<string>)
    ensures |r| == |options|
    ensures forall i :: 0 <= i < |options| ==> r[i] == options[i].name
  {
    seq(|options|, i requires 0 <= i < |options| => options[i].name)
  }

  /** JavaScript's `parts.join(sep)`. */
  function Join(parts: seq<string>, sep: string): (r: string)
    decreases |parts|
  {
    if parts == [] then ""
    else if |parts| == 1 then parts[0]
    else parts[0] + sep + Join(parts[1..], sep)
  }

  /** Where `parts[k]` starts inside `Join(parts, sep)`. */
  function Offset(parts: seq<string>, sep: string, k: nat): nat
    requires k <= |parts|
    decreases k
  {
    if k == 0 then 0 else Offset(parts, sep, k - 1) + |parts[k - 1]| + |sep|
  }

  /** Every part appears, whole, at its offset in the joined string. */
  lemma {:induction false} JoinContainsPart(parts: seq<string>, sep: string, k: nat)
    requires k < |parts|
    ensures Offset(parts, sep, k) + |parts[k]| <= |Join(parts, sep)|
    ensures Join(parts, sep)[Offset(parts, sep, k)..Offset(parts, sep, k) + |parts[k]|] == parts[k]
    decreases k
  {
    if k == 0 {
    } else {
      var tail := parts[1..];
      JoinContainsPart(tail, sep, k - 1);
      OffsetShift(parts, sep, k);
      var head := parts[0] + sep;
      assert Join(parts, sep) == head + Join(tail, sep);
      var o := Offset(tail, sep, k - 1);
      assert (head + Join(tail, sep))[|head| + o..|head| + o + |parts[k]|]
          == Join(tail, sep)[o..o + |tail[k - 1]|];
    }
  }

  /** Between consecutive parts stands exactly the separator. */
  lemma {:induction false} JoinSeparatorAt(parts: seq<string>, sep: string, k: nat)
    requires k + 1 < |parts|
    ensures Offset(parts, sep, k) + |parts[k]| + |sep| == Offset(parts, sep, k + 1) <= |Join(parts, sep)|
    ensures Join(parts, sep)[Offset(parts, sep, k) + |parts[k]|..Offset(parts, sep, k + 1)] == sep
    decreases k
  {
    var head := parts[0] + sep;
    var tail := parts[1..];
    assert Join(parts, sep) == head + Join(tail, sep);
    if k == 0 {
      JoinContainsPart(parts, sep, 1);
    } else {
      JoinSeparatorAt(tail, sep, k - 1);
      OffsetShift(parts, sep, k);
      OffsetShift(parts, sep, k + 1);
      var o := Offset(tail, sep, k - 1) + |tail[k - 1]|;
      assert (head + Join(tail, sep))[|head| + o..|head| + o + |sep|]
          == Join(tail, sep)[o..o + |sep|];
    }
  }

  /** The joined string ends right after the last part: nothing is added
      beyond the parts and the separators between them. */
  lemma {:induction false} JoinLength(parts: seq<string>, sep: string)
    requires parts != []
    ensures |Join(parts, sep)| + |sep| == Offset(parts, sep, |parts|)
    decreases |parts|
  {
    if |parts| > 1 {
      JoinLength(parts[1..], sep);
      OffsetShift(parts, sep, |parts|);
    }
  }

  lemma {:induction false} OffsetShift(parts: seq<string>, sep: string, k: nat)
    requires 0 < k <= |parts|
    ensures Offset(parts, sep, k) == |parts[0]| + |sep| + Offset(parts[1..], sep, k - 1)
    decreases k
  {
    if k > 1 { OffsetShift(parts, sep, k - 1); }
  }

  /** The text shown in the closed picker. */
  function GetSelectedLabel(options: seq<Option>, selected: seq<string>, placeholder: Optional<string>): (r: string)
    ensures selected == [] ==> r == EffectivePlaceholder(placeholder)
    // The default text, spelled out (it follows from EffectivePlaceholder's contract).
    ensures selected == [] && placeholder.Undefined? ==> r == "Select options..."
    ensures selected != [] ==> r == Join(Names(SelectedOptions(options, selected)), Separator)
  {
    if |selected| == 0 then EffectivePlaceholder(placeholder)
    else Join(Names(SelectedOptions(options, selected)), Separator)
  }

  /** Beyond being empty or not, the label depends on the selection only
      through which listed options it matches: selection order, repeated ids
      and ids that match no option do not change it. */
  lemma LabelDependsOnMatchedIds(options: seq<Option>, s1: seq<string>, s2: seq<string>, placeholder: Optional<string>)
    requires (s1 == []) == (s2 == [])
    requires forall o :: o in options ==> (o.id in s1 <==> o.id in s2)
    ensures GetSelectedLabel(options, s1, placeholder) == GetSelectedLabel(options, s2, placeholder)
  {
    if s1 != [] {
      var r := SelectedOptions(options, s1);
      forall o ensures multiset(r)[o] == if IdIn(s2)(o) then multiset(options)[o] else 0 {
        if o !in options { assert multiset(options)[o] == 0; }
      }
      FilterUnique(options, IdIn(s2), r);
    }
  }

  /** A non-empty selection matching no option yields the empty string,
      not the placeholder. */
  lemma LabelUnmatched(options: seq<Option>, selected: seq<string>, placeholder: Optional<string>)
    requires selected != []
    requires forall o :: o in options ==> o.id !in selected
    ensures GetSelectedLabel(options, selected, placeholder) == ""
  {
    var r := SelectedOptions(options, selected);
    assert multiset(r) == multiset{};
  }

  /** Names follow the order of `options`, not the order of selection. */
  lemma LabelOrderExample()
    ensures GetSelectedLabel([Option("pop", "Pop"), Option("rock", "Rock"), Option("jazz", "Jazz")],
                             ["jazz", "pop"], Undefined) == "Pop, Jazz"
  {
  }

  /** An option listed twice appears twice; an id selected twice does not. */
  lemma LabelDuplicatesExample()
    ensures GetSelectedLabel([Option("rock", "Rock"), Option("pop", "Pop"), Option("rock", "Rock")],
                             ["rock", "rock"], Undefined) == "Rock, Rock"
  {
  }

  /** Re-selecting after deselecting puts the id last. */
  lemma ToggleExample()
    ensures ToggleOption(["pop", "rock"], "pop") == ["rock"]
    ensures ToggleOption(ToggleOption(["pop", "rock"], "pop"), "pop") == ["rock", "pop"]
  {
  }
}
