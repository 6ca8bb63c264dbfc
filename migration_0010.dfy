/**
 * `fix_corrupted_arrays` (recipes/migrations/0010_auto_20250914_1618.py): each
 * recipe's `category` and `diet` are repaired by the same rule, a `changed`
 * flag records whether either was rewritten, and only changed recipes are saved.
 */
module Migration0010 {
  import opened PyText
  import opened LabelValues

  /** What `json.loads` makes of a string, as far as the rule looks at it: it raises,
      it yields something other than a list, or it yields a list of labels. */
  datatype ParseResult = ParseFails | NotAList | AList(items: seq<string>)

  /** The repaired value of one field, and whether the rule assigned it. */
  datatype Fix = Fix(value: FieldValue, changed: bool)

  /** The per-field rule.  `parse` stands for `json.loads`. */
  function FixField(v: FieldValue, parse: string -> ParseResult): Fix {
    if !Truthy(v) then Fix(v, false)
    else match v
      case Str(s) =>
        if s == NoneLabel then Fix(List([]), true)
        else (match parse(ReplaceChar(s, '\'', '"'))
          case AList(xs) => Fix(List(RemoveNone(xs)), true)
          case ParseFails => Fix(List([]), true)
          case NotAList => Fix(v, false))
      case List(xs) =>
        var cleaned := RemoveNone(xs);
        if cleaned != xs then Fix(List(cleaned), true) else Fix(v, false)
      case Null => Fix(v, false)
  }

  /** The flag is set exactly when the value was replaced by a different one; null, ""
      and [] are never touched. */
  lemma FixChangedIffDiffers(v: FieldValue, parse: string -> ParseResult)
    ensures FixField(v, parse).changed <==> FixField(v, parse).value != v
    ensures !Truthy(v) ==> FixField(v, parse) == Fix(v, false)
  {
  }

  /** The branch taken for each kind of value. */
  lemma FixFieldCases(v: FieldValue, parse: string -> ParseResult)
    ensures v == Str(NoneLabel) ==> FixField(v, parse) == Fix(List([]), true)
    ensures v.Str? && v.s != [] && v.s != NoneLabel ==>
      var p := parse(ReplaceChar(v.s, '\'', '"'));
      && (p.AList? ==> FixField(v, parse) == Fix(List(RemoveNone(p.items)), true))
      && (p.ParseFails? ==> FixField(v, parse) == Fix(List([]), true))
      && (p.NotAList? ==> FixField(v, parse) == Fix(v, false))
    ensures v.List? && v.items != [] ==>
      FixField(v, parse) == Fix(List(RemoveNone(v.items)), NoneLabel in v.items)
  {
    if v.List? {
      RemoveNoneUnchangedIff(v.items);
    }
  }

  /** A list that comes out of the rule holds no "none". */
  lemma FixFieldDropsNone(v: FieldValue, parse: string -> ParseResult)
    requires FixField(v, parse).value.List?
    ensures NoneLabel !in FixField(v, parse).value.items
  {
    match v
    case Str(s) =>
      if s != NoneLabel && s != [] {
        var p := parse(ReplaceChar(s, '\'', '"'));
        if p.AList? {
          RemoveNoneDropsNone(p.items);
        }
      }
    case List(xs) =>
      RemoveNoneDropsNone(xs);
      RemoveNoneUnchangedIff(xs);
    case Null =>
  }

  /** Applying the rule to its own output changes nothing. */
  lemma FixFieldIdempotent(v: FieldValue, parse: string -> ParseResult)
    ensures FixField(FixField(v, parse).value, parse) == Fix(FixField(v, parse).value, false)
  {
    var w := FixField(v, parse).value;
    if w.List? {
      FixFieldDropsNone(v, parse);
      RemoveNoneUnchangedIff(w.items);
    }
  }

  datatype LabelRow = LabelRow(category: FieldValue, diet: FieldValue)

  /** The repaired row and the recipe's `changed` flag. */
  function FixRow(row: LabelRow, parse: string -> ParseResult): (LabelRow, bool) {
    var c := FixField(row.category, parse);
    var d := FixField(row.diet, parse);
    (LabelRow(c.value, d.value), c.changed || d.changed)
  }

  /** The recipes' `changed` flags, in order. */
  function Flags(rows: seq<LabelRow>, parse: string -> ParseResult): (flags: seq<bool>)
    ensures |flags| == |rows|
  {
    seq(|rows|, i requires 0 <= i < |rows| => FixRow(rows[i], parse).1)
  }

  /** The indices below `n` whose flag is set, in order. */
  function SetIndices(flags: seq<bool>, n: nat): seq<nat>
    requires n <= |flags|
  {
    if n == 0 then []
    else SetIndices(flags, n - 1) + (if flags[n - 1] then [n - 1] else [])
  }

  /** The indices below `n` of the recipes whose flag ends up set, in order. */
  function ChangedRows(rows: seq<LabelRow>, parse: string -> ParseResult, n: nat): seq<nat>
    requires n <= |rows|
  {
    SetIndices(Flags(rows, parse), n)
  }

  lemma {:induction false} SetIndicesMembers(flags: seq<bool>, n: nat)
    requires n <= |flags|
    ensures forall i: nat :: i in SetIndices(flags, n) <==> i < n && flags[i]
  {
    if n > 0 {
      SetIndicesMembers(flags, n - 1);
    }
  }

  lemma {:induction false} SetIndicesIncreasing(flags: seq<bool>, n: nat)
    requires n <= |flags|
    ensures forall a, b :: 0 <= a < b < |SetIndices(flags, n)| ==>
      SetIndices(flags, n)[a] < SetIndices(flags, n)[b]
  {
    if n > 0 {
      SetIndicesIncreasing(flags, n - 1);
      SetIndicesMembers(flags, n - 1);
      var prev := SetIndices(flags, n - 1);
      forall a | 0 <= a < |prev| ensures prev[a] < n - 1 {
        assert prev[a] in prev;
      }
    }
  }

  /** Exactly the changed recipes are saved, each once and in order, and a recipe that
      is not saved keeps both its values. */
  lemma ChangedRowsSpec(rows: seq<LabelRow>, parse: string -> ParseResult, n: nat)
    requires n <= |rows|
    ensures forall i: nat :: i in ChangedRows(rows, parse, n) <==> i < n && FixRow(rows[i], parse).1
    ensures forall a, b :: 0 <= a < b < |ChangedRows(rows, parse, n)| ==>
      ChangedRows(rows, parse, n)[a] < ChangedRows(rows, parse, n)[b]
    ensures forall i: nat :: i < n && i !in ChangedRows(rows, parse, n) ==> FixRow(rows[i], parse).0 == rows[i]
  {
    var flags := Flags(rows, parse);
    SetIndicesMembers(flags, n);
    SetIndicesIncreasing(flags, n);
    assert forall i :: 0 <= i < n ==> flags[i] == FixRow(rows[i], parse).1;
    forall i: nat | i < n && i !in ChangedRows(rows, parse, n) ensures FixRow(rows[i], parse).0 == rows[i] {
      FixChangedIffDiffers(rows[i].category, parse);
      FixChangedIffDiffers(rows[i].diet, parse);
    }
  }

  /** The loop over all recipes.  Each recipe starts with `changed` false; each field
      that the rule rewrites is assigned and sets the flag; the recipe is saved only
      when the flag is set. */
  method FixCorruptedArrays(rows: seq<LabelRow>, parse: string -> ParseResult)
    returns (fixed: seq<LabelRow>, saved: seq<nat>)
    ensures |fixed| == |rows|
    ensures forall i :: 0 <= i < |rows| ==> fixed[i] == FixRow(rows[i], parse).0
    ensures saved == ChangedRows(rows, parse, |rows|)
  {
    fixed := [];
    saved := [];
    var i := 0;
    while i < |rows|
      invariant 0 <= i <= |rows|
      invariant |fixed| == i && forall j :: 0 <= j < i ==> fixed[j] == FixRow(rows[j], parse).0
      invariant saved == ChangedRows(rows, parse, i)
    {
      var changed := false;
      var category := rows[i].category;
      var diet := rows[i].diet;
      var c := FixField(category, parse);
      if c.changed {
        category := c.value;
        changed := true;
      }
      var d := FixField(diet, parse);
      if d.changed {
        diet := d.value;
        changed := true;
      }
      FixChangedIffDiffers(rows[i].category, parse);
      FixChangedIffDiffers(rows[i].diet, parse);
      fixed := fixed + [LabelRow(category, diet)];
      assert Flags(rows, parse)[i] == changed;
      if changed {
        saved := saved + [i];
      }
      i := i + 1;
    }
  }
}
