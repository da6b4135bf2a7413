/**
 * `str_to_dict` and `headers_list_to_dict`: `key:value` strings become a
 * dictionary. Each string is split on `:`; the stripped first token is the
 * key, the stripped second token the value, further tokens are ignored, and a
 * later key overwrites an earlier one. A string without `:` has no second
 * token: `str_to_dict` catches the `IndexError` and skips the piece,
 * `headers_list_to_dict` lets it escape.
 */
module KeyValues {
  import opened Wrappers
  import opened Strings

  datatype KeyValueError = IndexError

  /** The key and value of one `key:value` string, `None` where indexing the second token raises. */
  function Entry(item: string): (e: Option<(string, string)>)
    ensures e.Some? <==> ':' in item
    ensures e.Some? ==>
              var i := IndexOf(item, ':');
              var rest := item[i + 1..];
              e.value == (Strip(item[..i]), Strip(rest[..IndexOf(rest, ':')]))
  {
    SplitCount(item, ':');
    SplitFirst(item, ':');
    var tokens := Split(item, ':');
    if |tokens| < 2 then None
    else
      SplitSecond(item, ':');
      Some((Strip(tokens[0]), Strip(tokens[1])))
  }

  /** The entry of every string, in order. */
  function Entries(items: seq<string>): (es: seq<Option<(string, string)>>)
    ensures |es| == |items|
    ensures forall i :: 0 <= i < |items| ==> es[i] == Entry(items[i])
  {
    seq(|items|, i requires 0 <= i < |items| => Entry(items[i]))
  }

  /** The dictionary a sequence of entries builds, in order, a later key
      overwriting an earlier one and a missing entry skipped. */
  function Fold(es: seq<Option<(string, string)>>): map<string, string>
    decreases |es|
  {
    if es == [] then map[]
    else
      var m := Fold(es[..|es| - 1]);
      match es[|es| - 1]
      case None => m
      case Some((k, v)) => m[k := v]
  }

  /** The same, except that the first missing entry raises `IndexError`. */
  function FoldOrRaise(es: seq<Option<(string, string)>>): Result<map<string, string>, KeyValueError>
    decreases |es|
  {
    if es == [] then Success(map[])
    else
      match FoldOrRaise(es[..|es| - 1])
      case Failure(e) => Failure(e)
      case Success(m) =>
        match es[|es| - 1]
        case None => Failure(IndexError)
        case Some((k, v)) => Success(m[k := v])
  }

  /** What the loop of `str_to_dict` builds from the comma-separated pieces. */
  function Collect(items: seq<string>): (m: map<string, string>)
    ensures forall k :: k in m <==> exists i :: 0 <= i < |items| && Entry(items[i]).Some? && Entry(items[i]).value.0 == k
  {
    EntriesKeys(items);
    Fold(Entries(items))
  }

  /** What the loops of `headers_list_to_dict` build or raise from the strings. */
  function CollectOrRaise(items: seq<string>): Result<map<string, string>, KeyValueError>
  {
    FoldOrRaise(Entries(items))
  }

  /** `str_to_dict(key_values)`. */
  method StrToDict(keyValues: string) returns (d: map<string, string>)
    ensures d == Collect(Split(keyValues, ','))
  {
    var pieces := Split(keyValues, ',');
    d := map[];
    var i := 0;
    while i < |pieces|
      invariant 0 <= i <= |pieces|
      invariant d == Collect(pieces[..i])
    {
      assert pieces[..i + 1] == pieces[..i] + [pieces[i]];
      CollectStep(pieces[..i], pieces[i]);
      var tokens := Split(pieces[i], ':');
      if |tokens| >= 2 {
        var key := Strip(tokens[0]);
        var value := Strip(tokens[1]);
        d := d[key := value];
      }
      i := i + 1;
    }
    assert pieces[..i] == pieces;
  }

  /** The strings of the inner lists, in order. */
  function Flatten(lists: seq<seq<string>>): seq<string>
    decreases |lists|
  {
    if lists == [] then []
    else Flatten(lists[..|lists| - 1]) + lists[|lists| - 1]
  }

  /** What `headers_list_to_dict(headers)` returns or raises: `{}` for `None`
      or `[]`; otherwise `IndexError` exactly when some string lacks `:`, and
      the same dictionary as `str_to_dict`'s loop builds when none does. */
  function HeadersToDict(headers: Option<seq<seq<string>>>): (r: Result<map<string, string>, KeyValueError>)
    ensures headers.None? || headers.value == [] ==> r == Success(map[])
    ensures headers.Some? && headers.value != [] ==>
              (r.Success? <==> forall i :: 0 <= i < |Flatten(headers.value)| ==> ':' in Flatten(headers.value)[i])
    ensures r.Failure? ==> r.error == IndexError
    ensures headers.Some? && r.Success? ==> r.value == Collect(Flatten(headers.value))
  {
    match headers
    case None => Success(map[])
    case Some(lists) =>
      if lists == [] then Success(map[])
      else
        var items := Flatten(lists);
        FoldOrRaiseAgrees(Entries(items));
        EntriesPresent(items);
        CollectOrRaise(items)
  }

  /** `headers_list_to_dict(headers)`. */
  method HeadersListToDict(headers: Option<seq<seq<string>>>) returns (r: Result<map<string, string>, KeyValueError>)
    ensures r == HeadersToDict(headers)
  {
    if headers.None? || headers.value == [] {
      return Success(map[]);
    }
    var lists := headers.value;
    assert HeadersToDict(headers) == CollectOrRaise(Flatten(lists));
    var d: map<string, string> := map[];
    var i := 0;
    while i < |lists|
      invariant 0 <= i <= |lists|
      invariant CollectOrRaise(Flatten(lists[..i])) == Success(d)
    {
      var list := lists[i];
      ghost var seen := Flatten(lists[..i]);
      assert seen + list[..0] == seen;
      var j := 0;
      while j < |list|
        invariant 0 <= j <= |list|
        invariant CollectOrRaise(seen + list[..j]) == Success(d)
      {
        HeaderStep(seen, list, j, d);
        var tokens := Split(list[j], ':');
        if |tokens| < 2 {
          RaiseCarriesOn(lists, i, seen + list[..j + 1]);
          return Failure(IndexError);
        }
        d := d[Strip(tokens[0]) := Strip(tokens[1])];
        j := j + 1;
      }
      assert list[..j] == list;
      assert Flatten(lists[..i + 1]) == seen + list by {
        assert lists[..i + 1][..i] == lists[..i];
      }
      i := i + 1;
    }
    assert lists[..i] == lists;
    return Success(d);
  }

  /** One string of the inner loop of `headers_list_to_dict`. */
  lemma HeaderStep(seen: seq<string>, list: seq<string>, j: nat, d: map<string, string>)
    requires j < |list| && CollectOrRaise(seen + list[..j]) == Success(d)
    ensures seen + list[..j + 1] <= seen + list
    ensures var tokens := Split(list[j], ':');
            CollectOrRaise(seen + list[..j + 1])
            == if |tokens| < 2 then Failure(IndexError) else Success(d[Strip(tokens[0]) := Strip(tokens[1])])
  {
    assert seen + list[..j + 1] == (seen + list[..j]) + [list[j]] by {
      Snoc(list, j);
      Associative(seen, list[..j], [list[j]]);
    }
    CollectOrRaiseStep(seen + list[..j], list[j], d);
  }

  lemma Snoc<T>(s: seq<T>, j: nat)
    requires j < |s|
    ensures s[..j + 1] == s[..j] + [s[j]]
  {
  }

  // ---------------------------------------------------------------------------
  // Properties of one string

  /** A string with `:` maps the stripped text before the first `:` to the
      stripped text between the first and the second; the rest is dropped. */
  lemma EntryOfPair(key: string, value: string, rest: string)
    requires ':' !in key && ':' !in value
    requires rest == [] || rest[0] == ':'
    ensures Entry(key + [':'] + value + rest) == Some((Strip(key), Strip(value)))
  {
    SplitTwo(key, value, rest, ':');
  }

  /** `str_to_dict('')` is `{}`. */
  lemma StrToDictOfEmpty()
    ensures Collect(Split("", ',')) == map[]
  {
    assert Split("", ',') == [""];
    assert Split("", ':') == [""];
    assert Entries([""]) == [None];
  }

  // ---------------------------------------------------------------------------
  // Properties of the fold

  /** Some entry has key `k`. */
  ghost predicate HasKey(es: seq<Option<(string, string)>>, k: string)
  {
    exists i :: 0 <= i < |es| && es[i].Some? && es[i].value.0 == k
  }

  /** A key is in the dictionary exactly when some entry has it. */
  lemma {:induction false} FoldKeys(es: seq<Option<(string, string)>>, k: string)
    ensures k in Fold(es) <==> HasKey(es, k)
    decreases |es|
  {
    if es != [] {
      FoldKeys(es[..|es| - 1], k);
      HasKeySnoc(es, k);
    }
  }

  lemma HasKeySnoc(es: seq<Option<(string, string)>>, k: string)
    requires es != []
    ensures var last := es[|es| - 1];
            HasKey(es, k) <==> HasKey(es[..|es| - 1], k) || (last.Some? && last.value.0 == k)
  {
    var init := es[..|es| - 1];
    if HasKey(es, k) {
      var i :| 0 <= i < |es| && es[i].Some? && es[i].value.0 == k;
      if i < |init| {
        assert init[i] == es[i];
      }
    }
    if HasKey(init, k) {
      var i :| 0 <= i < |init| && init[i].Some? && init[i].value.0 == k;
      assert init[i] == es[i];
    }
  }

  /** The last entry with a given key decides its value. */
  lemma {:induction false} FoldLastWins(es: seq<Option<(string, string)>>, i: nat)
    requires i < |es| && es[i].Some?
    requires forall j :: i < j < |es| && es[j].Some? ==> es[j].value.0 != es[i].value.0
    ensures es[i].value.0 in Fold(es) && Fold(es)[es[i].value.0] == es[i].value.1
    decreases |es|
  {
    if i < |es| - 1 {
      var init := es[..|es| - 1];
      assert init[i] == es[i];
      forall j | i < j < |init| && init[j].Some?
        ensures init[j].value.0 != init[i].value.0
      {
        assert init[j] == es[j];
      }
      FoldLastWins(init, i);
    }
  }

  /** Every entry is present. */
  predicate AllPresent(es: seq<Option<(string, string)>>)
  {
    forall i :: 0 <= i < |es| ==> es[i].Some?
  }

  /** Raising succeeds exactly when no entry is missing, and then builds what skipping builds. */
  lemma {:induction false} FoldOrRaiseAgrees(es: seq<Option<(string, string)>>)
    ensures FoldOrRaise(es).Success? <==> AllPresent(es)
    ensures FoldOrRaise(es).Success? ==> FoldOrRaise(es).value == Fold(es)
    ensures FoldOrRaise(es).Failure? ==> FoldOrRaise(es).error == IndexError
    decreases |es|
  {
    if es != [] {
      var init := es[..|es| - 1];
      FoldOrRaiseAgrees(init);
      assert forall i :: 0 <= i < |init| ==> init[i] == es[i];
    }
  }

  /** Once an entry has raised, later entries change nothing. */
  lemma {:induction false} RaisedStays(es: seq<Option<(string, string)>>, longer: seq<Option<(string, string)>>)
    requires FoldOrRaise(es).Failure? && es <= longer
    ensures FoldOrRaise(longer) == FoldOrRaise(es)
    decreases |longer|
  {
    if |longer| > |es| {
      var init := longer[..|longer| - 1];
      assert es <= init;
      RaisedStays(es, init);
    } else {
      assert es == longer;
    }
  }

  // ---------------------------------------------------------------------------
  // The same properties of the strings

  /** Every string has an entry exactly when every string holds a `:`. */
  lemma EntriesPresent(items: seq<string>)
    ensures AllPresent(Entries(items)) <==> forall i :: 0 <= i < |items| ==> ':' in items[i]
  {
    var es := Entries(items);
    assert forall i :: 0 <= i < |items| ==> (es[i].Some? <==> ':' in items[i]);
  }

  /** A key is in the dictionary the entries of `items` build exactly when some string's entry has it. */
  lemma EntriesKeys(items: seq<string>)
    ensures forall k :: k in Fold(Entries(items)) <==> exists i :: 0 <= i < |items| && Entry(items[i]).Some? && Entry(items[i]).value.0 == k
  {
    forall k {
      FoldKeys(Entries(items), k);
    }
  }

  /** The last piece with a given key decides its value. */
  lemma CollectLastWins(items: seq<string>, i: nat)
    requires i < |items| && Entry(items[i]).Some?
    requires forall j :: i < j < |items| && Entry(items[j]).Some? ==> Entry(items[j]).value.0 != Entry(items[i]).value.0
    ensures Entry(items[i]).value.0 in Collect(items)
    ensures Collect(items)[Entry(items[i]).value.0] == Entry(items[i]).value.1
  {
    FoldLastWins(Entries(items), i);
  }

  // ---------------------------------------------------------------------------
  // Proofs

  lemma EntriesSnoc(items: seq<string>, item: string)
    ensures Entries(items + [item]) == Entries(items) + [Entry(item)]
  {
  }

  lemma EntriesPrefix(items: seq<string>, longer: seq<string>)
    requires items <= longer
    ensures Entries(items) <= Entries(longer)
  {
  }

  lemma CollectStep(items: seq<string>, item: string)
    ensures var tokens := Split(item, ':');
            Collect(items + [item])
            == if |tokens| < 2 then Collect(items) else Collect(items)[Strip(tokens[0]) := Strip(tokens[1])]
  {
    var es := Entries(items);
    EntriesSnoc(items, item);
    assert (es + [Entry(item)])[..|es|] == es;
  }

  lemma CollectOrRaiseStep(items: seq<string>, item: string, d: map<string, string>)
    requires CollectOrRaise(items) == Success(d)
    ensures var tokens := Split(item, ':');
            CollectOrRaise(items + [item])
            == if |tokens| < 2 then Failure(IndexError) else Success(d[Strip(tokens[0]) := Strip(tokens[1])])
  {
    var es := Entries(items);
    EntriesSnoc(items, item);
    assert (es + [Entry(item)])[..|es|] == es;
  }

  /** Once a string has raised, later strings change nothing. */
  lemma RaiseCarriesOn(lists: seq<seq<string>>, i: nat, items: seq<string>)
    requires i < |lists| && CollectOrRaise(items) == Failure(IndexError)
    requires items <= Flatten(lists[..i]) + lists[i]
    ensures CollectOrRaise(Flatten(lists)) == Failure(IndexError)
  {
    assert lists[..i + 1][..i] == lists[..i];
    FlattenPrefix(lists, i + 1);
    EntriesPrefix(items, Flatten(lists));
    RaisedStays(Entries(items), Entries(Flatten(lists)));
  }

  lemma {:induction false} FlattenPrefix(lists: seq<seq<string>>, n: nat)
    requires n <= |lists|
    ensures Flatten(lists[..n]) <= Flatten(lists)
    decreases |lists|
  {
    if n < |lists| {
      var init := lists[..|lists| - 1];
      assert init[..n] == lists[..n];
      FlattenPrefix(init, n);
    } else {
      assert lists[..n] == lists;
    }
  }
}
