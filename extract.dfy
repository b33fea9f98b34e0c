/** The extractor (cloudwater.py `get_name` .. `get_beers`): from already located menu-item
    texts to a snapshot keyed by normalised name. */
module Extract {
  import opened Wrappers
  import opened Beers

  /** One menu-item block, reduced to the texts the getters read: the title element's text,
      the description element's text, the option element's text if that element exists, and
      the node `.next` yields after the currency-sign element (treated as text), absent when
      the block has no such element. */
  datatype MenuItem = MenuItem(
    title: string,
    description: string,
    option: Option<string>,
    afterCurrency: Option<string>)

  /** What `get_strength` raises on: no currency-sign element (`None.next`), or text that
      does not start with a number (`None[0]` on a failed match). */
  datatype ParseError = NoCurrencySign | NoLeadingNumber(text: string)

  /** Python's `str.isspace`, the characters `rstrip()` removes. */
  predicate IsSpace(c: char)
  {
    || ('\t' <= c <= '\r')
    || ('\U{1C}' <= c <= ' ')
    || c == '\U{85}' || c == '\U{A0}' || c == '\U{1680}'
    || ('\U{2000}' <= c <= '\U{200A}')
    || c == '\U{2028}' || c == '\U{2029}' || c == '\U{202F}' || c == '\U{205F}'
    || c == '\U{3000}'
  }

  /** `s.replace('*', '')`. */
  function RemoveStars(s: string): string
  {
    if s == [] then [] else (if s[0] == '*' then [] else [s[0]]) + RemoveStars(s[1..])
  }

  /** `s.rstrip()`: drop whitespace from the end, one character at a time. */
  function RStrip(s: string): string
    decreases |s|
  {
    if s != [] && IsSpace(s[|s| - 1]) then RStrip(s[..|s| - 1]) else s
  }

  /** `get_name`: every asterisk removed, then trailing whitespace removed. */
  function GetName(title: string): string
  {
    RStrip(RemoveStars(title))
  }

  /** `get_description`: the description text as it is (not stripped). */
  function GetDescription(item: MenuItem): string
  {
    item.description
  }

  /** `get_extra_info`: the option text when the option element exists. */
  function GetExtraInfo(item: MenuItem): Option<string>
  {
    item.option
  }

  predicate IsDigit(c: char)
  {
    '0' <= c <= '9'
  }

  /** The longest all-digit prefix of `s`. */
  function LeadingDigits(s: string): (d: string)
    ensures d <= s
    ensures forall i | 0 <= i < |d| :: IsDigit(d[i])
    ensures |d| == |s| || !IsDigit(s[|d|])
  {
    if s != [] && IsDigit(s[0]) then [s[0]] + LeadingDigits(s[1..]) else []
  }

  /** `t` is matched in full by the regular expression `\d+\.?\d*`: a digit first, then
      digits with at most one dot. */
  predicate IsToken(t: string)
  {
    && |t| > 0
    && IsDigit(t[0])
    && (forall i | 0 <= i < |t| :: IsDigit(t[i]) || t[i] == '.')
    && (forall i, j | 0 <= i < j < |t| :: !(t[i] == '.' && t[j] == '.'))
  }

  /** `re.match(r'\d+\.?\d*', s)[0]`, or `None` when the match fails. */
  function MatchStrength(s: string): (m: Option<string>)
    ensures m.None? <==> (s == [] || !IsDigit(s[0]))
    ensures m.Some? ==> m.value <= s && IsToken(m.value)
  {
    var whole := LeadingDigits(s);
    if whole == [] then None
    else
      var rest := s[|whole|..];
      if rest != [] && rest[0] == '.' then
        var fraction := LeadingDigits(rest[1..]);
        assert s[..|whole| + 1 + |fraction|] == whole + "." + fraction;
        Some(whole + "." + fraction)
      else Some(whole)
  }

  /** `get_strength` up to the `float()` conversion. */
  function GetStrength(afterCurrency: Option<string>): (r: Result<string, ParseError>)
    ensures afterCurrency.None? ==> r == Failure(NoCurrencySign)
    ensures afterCurrency.Some? ==>
              (r.Failure? <==> afterCurrency.value == [] || !IsDigit(afterCurrency.value[0]))
    ensures r.Failure? && afterCurrency.Some? ==> r.error == NoLeadingNumber(afterCurrency.value)
    ensures r.Success? ==> afterCurrency.Some? && r.value <= afterCurrency.value && IsToken(r.value)
  {
    match afterCurrency
    case None => Failure(NoCurrencySign)
    case Some(text) =>
      match MatchStrength(text)
      case None => Failure(NoLeadingNumber(text))
      case Some(token) => Success(token)
  }

  /** `parse_beer`: the record paired with its own name as key. */
  function ParseBeer(item: MenuItem): (r: Result<(string, Beer), ParseError>)
    ensures r.Success? <==> GetStrength(item.afterCurrency).Success?
    ensures r.Failure? ==> r.error == GetStrength(item.afterCurrency).error
    ensures r.Success? ==>
              && r.value.0 == r.value.1.name == GetName(item.title)
              && r.value.1.desc == GetDescription(item) == item.description
              && r.value.1.extraInfo == GetExtraInfo(item) == item.option
              && r.value.1.strength == GetStrength(item.afterCurrency).value
  {
    var name := GetName(item.title);
    match GetStrength(item.afterCurrency)
    case Failure(e) => Failure(e)
    case Success(strength) =>
      Success((name, Beer(name, GetDescription(item), GetExtraInfo(item), strength)))
  }

  /** The key an item is stored under. */
  function ItemName(item: MenuItem): string
  {
    GetName(item.title)
  }

  /** `dict(parse_beer(item) for item in items)`: insertion in order, the first failing
      item aborting the whole. */
  function BuildSnapshot(items: seq<MenuItem>): Result<Snapshot, ParseError>
    decreases |items|
  {
    if items == [] then Success(map[])
    else
      match BuildSnapshot(items[..|items| - 1])
      case Failure(e) => Failure(e)
      case Success(m) =>
        match ParseBeer(items[|items| - 1])
        case Failure(e) => Failure(e)
        case Success(entry) => Success(m[entry.0 := entry.1])
  }

  /** `get_beers` after the fetch: the dict built by successive insertion. */
  method GetBeers(items: seq<MenuItem>) returns (r: Result<Snapshot, ParseError>)
    ensures r == BuildSnapshot(items)
  {
    var beers: Snapshot := map[];
    var i := 0;
    while i < |items|
      invariant 0 <= i <= |items|
      invariant BuildSnapshot(items[..i]) == Success(beers)
    {
      assert items[..i + 1][..i] == items[..i];
      var parsed := ParseBeer(items[i]);
      if parsed.Failure? {
        BuildSnapshotFailureSticks(items, i + 1);
        return Failure(parsed.error);
      }
      beers := beers[parsed.value.0 := parsed.value.1];
      i := i + 1;
    }
    assert items[..i] == items;
    return Success(beers);
  }

  /** Once a prefix fails, the whole fails with the same error. */
  lemma {:induction false} BuildSnapshotFailureSticks(items: seq<MenuItem>, n: nat)
    requires n <= |items|
    requires BuildSnapshot(items[..n]).Failure?
    ensures BuildSnapshot(items) == BuildSnapshot(items[..n])
    decreases |items| - n
  {
    if n < |items| {
      var longer := items[..n + 1];
      assert longer[..n] == items[..n];
      assert BuildSnapshot(longer) == BuildSnapshot(items[..n]);
      BuildSnapshotFailureSticks(items, n + 1);
    } else {
      assert items[..n] == items;
    }
  }

  /** Every item parses. */
  predicate AllParse(items: seq<MenuItem>)
  {
    forall i | 0 <= i < |items| :: ParseBeer(items[i]).Success?
  }

  /** The fold succeeds exactly when every item parses. */
  lemma {:induction false} BuildSnapshotSucceeds(items: seq<MenuItem>)
    ensures BuildSnapshot(items).Success? <==> AllParse(items)
    decreases |items|
  {
    if items != [] {
      var init := items[..|items| - 1];
      var last := items[|items| - 1];
      BuildSnapshotSucceeds(init);
      assert forall i | 0 <= i < |init| :: init[i] == items[i];
      assert BuildSnapshot(items).Success? <==> BuildSnapshot(init).Success? && ParseBeer(last).Success?;
      assert AllParse(items) <==> AllParse(init) && ParseBeer(last).Success?;
    }
  }

  /** A failure carries the error of the first item that does not parse. */
  lemma {:induction false} BuildSnapshotFirstError(items: seq<MenuItem>)
    requires BuildSnapshot(items).Failure?
    ensures exists i | 0 <= i < |items| ::
              && ParseBeer(items[i]) == Failure(BuildSnapshot(items).error)
              && AllParse(items[..i])
    decreases |items|
  {
    var init := items[..|items| - 1];
    var last := |items| - 1;
    if BuildSnapshot(init).Failure? {
      assert BuildSnapshot(items) == BuildSnapshot(init);
      BuildSnapshotFirstError(init);
      var i :| 0 <= i < |init| && ParseBeer(init[i]) == Failure(BuildSnapshot(init).error)
                && AllParse(init[..i]);
      assert init[i] == items[i] && init[..i] == items[..i];
    } else {
      BuildSnapshotSucceeds(init);
      assert ParseBeer(items[last]) == Failure(BuildSnapshot(items).error);
      assert items[..last] == init;
    }
  }

  /** The names of a sequence of items. */
  function Names(items: seq<MenuItem>): set<string>
  {
    set i | 0 <= i < |items| :: ItemName(items[i])
  }

  lemma NamesSnoc(items: seq<MenuItem>)
    requires items != []
    ensures Names(items) == Names(items[..|items| - 1]) + {ItemName(items[|items| - 1])}
  {
    var init := items[..|items| - 1];
    assert forall i | 0 <= i < |init| :: init[i] == items[i];
    forall k | k in Names(items) ensures k in Names(init) + {ItemName(items[|items| - 1])} {
      var i :| 0 <= i < |items| && ItemName(items[i]) == k;
      if i < |init| { assert ItemName(init[i]) == k; }
    }
    forall k | k in Names(init) ensures k in Names(items) {
      var i :| 0 <= i < |init| && ItemName(init[i]) == k;
      assert ItemName(items[i]) == k;
    }
  }

  /** On success the keys are exactly the names of the items, and each key maps to a
      record of that name. */
  lemma {:induction false} BuildSnapshotKeys(items: seq<MenuItem>)
    requires BuildSnapshot(items).Success?
    ensures BuildSnapshot(items).value.Keys == Names(items)
    ensures forall k | k in BuildSnapshot(items).value :: BuildSnapshot(items).value[k].name == k
    decreases |items|
  {
    if items != [] {
      var init := items[..|items| - 1];
      var last := items[|items| - 1];
      var entry := ParseBeer(last).value;
      var m := BuildSnapshot(init).value;
      assert BuildSnapshot(items) == Success(m[entry.0 := entry.1]);
      BuildSnapshotKeys(init);
      NamesSnoc(items);
    }
  }

  /** For a name that occurs several times, the record of its last occurrence wins. */
  lemma {:induction false} BuildSnapshotLastWins(items: seq<MenuItem>, i: nat)
    requires BuildSnapshot(items).Success?
    requires i < |items|
    requires forall j | i < j < |items| :: ItemName(items[j]) != ItemName(items[i])
    ensures ParseBeer(items[i]).Success?
    ensures ItemName(items[i]) in BuildSnapshot(items).value
    ensures BuildSnapshot(items).value[ItemName(items[i])] == ParseBeer(items[i]).value.1
    decreases |items|
  {
    BuildSnapshotSucceeds(items);
    var init := items[..|items| - 1];
    if i < |items| - 1 {
      assert forall j | 0 <= j < |init| :: init[j] == items[j];
      BuildSnapshotLastWins(init, i);
    }
  }

  /** The result of `replace('*', '')` holds no asterisk. */
  lemma {:induction false} RemoveStarsNoStar(s: string)
    ensures '*' !in RemoveStars(s)
    decreases |s|
  {
    if s != [] {
      RemoveStarsNoStar(s[1..]);
    }
  }

  /** `rstrip()` keeps a prefix that does not end in whitespace and removes only whitespace. */
  lemma {:induction false} RStripSpec(s: string)
    ensures RStrip(s) <= s
    ensures RStrip(s) == [] || !IsSpace(RStrip(s)[|RStrip(s)| - 1])
    ensures forall i | |RStrip(s)| <= i < |s| :: IsSpace(s[i])
    decreases |s|
  {
    if s != [] && IsSpace(s[|s| - 1]) {
      var init := s[..|s| - 1];
      RStripSpec(init);
      assert forall i | 0 <= i < |init| :: init[i] == s[i];
    }
  }

  /** `get_name` removes asterisks anywhere in the title... */
  lemma {:induction false} RemoveStarsAppend(a: string, b: string)
    ensures RemoveStars(a + b) == RemoveStars(a) + RemoveStars(b)
    decreases |a|
  {
    if a != [] {
      var head := if a[0] == '*' then [] else [a[0]];
      assert (a + b)[0] == a[0];
      assert (a + b)[1..] == a[1..] + b;
      RemoveStarsAppend(a[1..], b);
      calc {
        RemoveStars(a + b);
        head + RemoveStars(a[1..] + b);
        head + (RemoveStars(a[1..]) + RemoveStars(b));
        (head + RemoveStars(a[1..])) + RemoveStars(b);
      }
    } else {
      assert a + b == b;
    }
  }

  /** ... and keeps every other character, in order. */
  lemma {:induction false} RemoveStarsKeeps(s: string)
    requires '*' !in s
    ensures RemoveStars(s) == s
    decreases |s|
  {
    if s != [] {
      RemoveStarsKeeps(s[1..]);
    }
  }

  /** A name without asterisks and without trailing whitespace; leading whitespace stays,
      since the result is a prefix of the title with its asterisks removed. */
  lemma GetNameShape(title: string)
    ensures '*' !in GetName(title)
    ensures GetName(title) == [] || !IsSpace(GetName(title)[|GetName(title)| - 1])
    ensures GetName(title) <= RemoveStars(title)
    ensures forall i | |GetName(title)| <= i < |RemoveStars(title)| :: IsSpace(RemoveStars(title)[i])
  {
    RemoveStarsNoStar(title);
    RStripSpec(RemoveStars(title));
    var n := GetName(title);
    assert forall i | 0 <= i < |n| :: n[i] == RemoveStars(title)[i];
  }

  /** Normalising an already normalised name changes nothing. */
  lemma GetNameIdempotent(title: string)
    ensures GetName(GetName(title)) == GetName(title)
  {
    var n := GetName(title);
    GetNameShape(title);
    RemoveStarsKeeps(n);
  }

  /** The stripped prefix is unique: any prefix whose tail is whitespace and which does not
      itself end in whitespace is the one `rstrip()` returns. */
  lemma {:induction false} RStripUnique(s: string, p: string)
    requires p <= s
    requires p == [] || !IsSpace(p[|p| - 1])
    requires forall i | |p| <= i < |s| :: IsSpace(s[i])
    ensures RStrip(s) == p
    decreases |s|
  {
    if |p| < |s| {
      var init := s[..|s| - 1];
      assert p <= init;
      assert forall i | 0 <= i < |init| :: init[i] == s[i];
      RStripUnique(init, p);
    }
  }

  /** The strength token is the longest prefix matched by `\d+\.?\d*`, which is what the
      greedy match returns. */
  lemma MatchStrengthLongest(s: string, n: nat)
    requires MatchStrength(s).Some?
    requires n <= |s|
    ensures IsToken(s[..n]) ==> n <= |MatchStrength(s).value|
  {
    var t := MatchStrength(s).value;
    var whole := LeadingDigits(s);
    if n > |t| {
      var p := s[..n];
      var rest := s[|whole|..];
      if rest != [] && rest[0] == '.' {
        var fraction := LeadingDigits(rest[1..]);
        assert t == whole + "." + fraction;
        assert p[|t|] == rest[1..][|fraction|];
        assert p[|whole|] == '.';
        assert !(IsDigit(p[|t|]) || p[|t|] == '.') || (p[|whole|] == '.' && p[|t|] == '.');
      } else {
        assert t == whole;
        assert !(IsDigit(p[|whole|]) || p[|whole|] == '.');
      }
    }
  }
}
