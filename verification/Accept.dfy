/** The ordering and the choice of Accept options in httputil/httputil.go. */
module Accept {
  import opened Bytes

  type Text = seq<byte>

  /** What strconv.ParseFloat can return: also for "q=NaN" and "q=inf". */
  datatype Weight = Num(value: real) | PosInf | NegInf | NaN

  /** Go's x > y */
  predicate Above(x: Weight, y: Weight) {
    match x
    case Num(r) => y.NegInf? || (y.Num? && r > y.value)
    case PosInf => y.Num? || y.NegInf?
    case NegInf => false
    case NaN => false
  }

  /** Go's x == y: NaN is not even equal to itself. */
  predicate Equal(x: Weight, y: Weight) {
    x == y && !x.NaN?
  }

  const ZERO := Num(0.0)

  datatype AcceptOption = AcceptOption(
    identity: bool, order: int, metaPrefix: Text, metaWildcard: bool, value: Text, weight: Weight, wildcard: bool)

  /** "identity" */
  const IDENTITY: Text := [0x69, 0x64, 0x65, 0x6e, 0x74, 0x69, 0x74, 0x79]

  // ----- the order of options -----

  /** The order of Go strings. */
  predicate TextLess(s: Text, t: Text) {
    t != [] && (s == [] || s[0] < t[0] || (s[0] == t[0] && TextLess(s[1..], t[1..])))
  }

  predicate Less(a: AcceptOption, b: AcceptOption) {
    if !Equal(a.weight, b.weight) then Above(a.weight, b.weight)
    else if a.wildcard || b.wildcard || a.metaWildcard || b.metaWildcard then
      if a.wildcard then false
      else if b.wildcard then true
      else if a.metaWildcard then b.metaWildcard && TextLess(a.metaPrefix, b.metaPrefix)
      else if b.metaWildcard then true
      else a.order < b.order
    else a.order < b.order
  }

  predicate Tied(a: AcceptOption, b: AcceptOption) {
    !Less(a, b) && !Less(b, a)
  }

  /** 0 for a plain option, 1 for one with a meta wildcard, 2 for a full wildcard. */
  function Kind(a: AcceptOption): nat {
    if a.wildcard then 2 else if a.metaWildcard then 1 else 0
  }

  lemma {:induction false} TextLessOrders(s: Text, t: Text, u: Text)
    ensures !TextLess(s, s)
    ensures TextLess(s, t) || s == t || TextLess(t, s)
    ensures TextLess(s, t) && TextLess(t, u) ==> TextLess(s, u)
    decreases |s|
  {
    if s != [] && t != [] {
      TextLessOrders(s[1..], t[1..], if u == [] then [] else u[1..]);
      assert s == [s[0]] + s[1..] && t == [t[0]] + t[1..];
    } else if s != [] {
      TextLessOrders(s[1..], [], []);
    }
  }

  lemma TextLessIsStrict(s: Text, t: Text)
    ensures !(TextLess(s, t) && TextLess(t, s))
  {
    TextLessOrders(s, t, s);
  }

  /** The usual meaning: s ends first, or has the smaller byte at the first difference. */
  lemma {:induction false} TextLessExactly(s: Text, t: Text)
    ensures TextLess(s, t) <==>
            || (s <= t && s != t)
            || exists k :: 0 <= k < |s| && k < |t| && s[..k] == t[..k] && s[k] < t[k]
  {
    if s != [] && t != [] && s[0] == t[0] {
      TextLessExactly(s[1..], t[1..]);
      assert s == [s[0]] + s[1..] && t == [t[0]] + t[1..];
      if k :| 0 <= k < |s[1..]| && k < |t[1..]| && s[1..][..k] == t[1..][..k] && s[1..][k] < t[1..][k] {
        assert s[..k + 1] == [s[0]] + s[1..][..k] && t[..k + 1] == [t[0]] + t[1..][..k];
        assert s[k + 1] < t[k + 1];
      }
      if k :| 0 <= k < |s| && k < |t| && s[..k] == t[..k] && s[k] < t[k] {
        assert k > 0;
        assert s[1..][..k - 1] == s[..k][1..] && t[1..][..k - 1] == t[..k][1..];
        assert s[1..][k - 1] < t[1..][k - 1];
      }
    } else if s != [] && t != [] && s[0] < t[0] {
      assert s[..0] == t[..0];
    }
  }

  /** Heavier options first; of equal weight plain before meta wildcard before full wildcard; of those
      plain ones by their place in the header, meta wildcards by their prefix, full wildcards not at all. */
  lemma LessExactly(a: AcceptOption, b: AcceptOption)
    ensures Less(a, b) <==>
            || Above(a.weight, b.weight)
            || (&& a.weight == b.weight && !a.weight.NaN?
                && (|| Kind(a) < Kind(b)
                    || (Kind(a) == Kind(b) == 0 && a.order < b.order)
                    || (Kind(a) == Kind(b) == 1 && TextLess(a.metaPrefix, b.metaPrefix))))
  {
    hide TextLess;
    assert a.weight == b.weight && !a.weight.NaN? ==> !Above(a.weight, b.weight);
  }

  /** What sort.Sort needs of Less, and how far it goes: a strict partial order always, with ties that are
      transitive exactly when the middle option is not NaN or the outer two tie. Without NaN ties are
      exactly equal weights of one kind that also agree in what that kind is ordered by. */
  lemma LessIsStrictWeakOrder(a: AcceptOption, b: AcceptOption, c: AcceptOption)
    ensures !Less(a, a) && !(Less(a, b) && Less(b, a))
    ensures Less(a, b) && Less(b, c) ==> Less(a, c)
    ensures (Tied(a, b) && Tied(b, c) ==> Tied(a, c)) <==> !b.weight.NaN? || Tied(a, c)
    ensures Tied(a, b) <==>
            || a.weight.NaN? || b.weight.NaN?
            || (&& a.weight == b.weight && Kind(a) == Kind(b)
                && (Kind(a) == 0 ==> a.order == b.order) && (Kind(a) == 1 ==> a.metaPrefix == b.metaPrefix))
  {
    hide TextLess;
    TextLessOrders(a.metaPrefix, b.metaPrefix, c.metaPrefix);
    TextLessOrders(b.metaPrefix, c.metaPrefix, a.metaPrefix);
    TextLessIsStrict(a.metaPrefix, b.metaPrefix);
    TextLessIsStrict(a.metaPrefix, c.metaPrefix);
  }

  /** Ties are transitive among the options of a header exactly when none has weight NaN, or all tie. */
  lemma WeakOrderExactly(opts: seq<AcceptOption>)
    ensures (forall i, j, k ::
               0 <= i < |opts| && 0 <= j < |opts| && 0 <= k < |opts| && Tied(opts[i], opts[j]) && Tied(opts[j], opts[k])
               ==> Tied(opts[i], opts[k]))
            <==>
            (|| (forall j :: 0 <= j < |opts| ==> !opts[j].weight.NaN?)
             || (forall i, k :: 0 <= i < |opts| && 0 <= k < |opts| ==> Tied(opts[i], opts[k])))
  {
    hide Tied;
    forall i, j, k | 0 <= i < |opts| && 0 <= j < |opts| && 0 <= k < |opts|
      ensures (Tied(opts[i], opts[j]) && Tied(opts[j], opts[k]) ==> Tied(opts[i], opts[k]))
              <==> !opts[j].weight.NaN? || Tied(opts[i], opts[k])
      ensures opts[j].weight.NaN? ==> Tied(opts[i], opts[j]) && Tied(opts[j], opts[k])
    {
      LessIsStrictWeakOrder(opts[i], opts[j], opts[k]);
      LessIsStrictWeakOrder(opts[j], opts[k], opts[i]);
    }
  }

  /** Pairwise in order: what sort.Sort leaves when Less is a strict weak order. */
  ghost predicate SortedOptions(opts: seq<AcceptOption>) {
    forall i, j :: 0 <= i < j < |opts| ==> !Less(opts[j], opts[i])
  }

  /** A header "a;q=0.5,b;q=NaN,c;q=1": each option is in order with its neighbours, so a sort has nothing
      to do, and yet c belongs before a. */
  lemma NaNHidesDisorder(a: Text, b: Text, c: Text)
    ensures var opts := [AcceptOption(false, 0, [], false, a, Num(0.5), false),
                         AcceptOption(false, 1, [], false, b, NaN, false),
                         AcceptOption(false, 2, [], false, c, Num(1.0), false)];
            && (forall i :: 0 <= i < |opts| - 1 ==> !Less(opts[i + 1], opts[i]))
            && Less(opts[2], opts[0]) && !SortedOptions(opts)
  {
    var opts := [AcceptOption(false, 0, [], false, a, Num(0.5), false),
                 AcceptOption(false, 1, [], false, b, NaN, false),
                 AcceptOption(false, 2, [], false, c, Num(1.0), false)];
    assert Less(opts[2], opts[0]);
  }

  // ----- which values are chosen -----

  predicate Takes(o: AcceptOption, v: Text) {
    o.wildcard || o.value == v || (o.metaWildcard && o.metaPrefix <= v)
  }

  /** How many options the loops look at: up to the first of weight zero or through the first wildcard. */
  function Considered(opts: seq<AcceptOption>): (k: nat)
    ensures k <= |opts|
  {
    if opts == [] || Equal(opts[0].weight, ZERO) then 0
    else if opts[0].wildcard then 1
    else 1 + Considered(opts[1..])
  }

  /** The first option that takes v, or |opts|. */
  function FirstOption(opts: seq<AcceptOption>, v: Text): (i: nat)
    ensures i <= |opts|
    ensures i < |opts| ==> Takes(opts[i], v)
    ensures forall j :: 0 <= j < i ==> !Takes(opts[j], v)
  {
    if opts == [] || Takes(opts[0], v) then 0 else 1 + FirstOption(opts[1..], v)
  }

  function FirstOffer(values: seq<Text>, v: Text): (i: nat)
    ensures i <= |values|
    ensures i < |values| ==> values[i] == v
    ensures forall j :: 0 <= j < i ==> values[j] != v
  {
    if values == [] || values[0] == v then 0 else 1 + FirstOffer(values[1..], v)
  }

  predicate Before(opts: seq<AcceptOption>, values: seq<Text>, u: Text, v: Text) {
    || FirstOption(opts, u) < FirstOption(opts, v)
    || (FirstOption(opts, u) == FirstOption(opts, v) && FirstOffer(values, u) < FirstOffer(values, v))
  }

  /** Pairwise in order, so without duplicates. */
  ghost predicate Ranked(opts: seq<AcceptOption>, values: seq<Text>, r: seq<Text>) {
    forall a, b :: 0 <= a < b < |r| ==> Before(opts, values, r[a], r[b])
  }

  /** The state of the loops after options below i, and of option i the offers below j. */
  ghost predicate Chosen(opts: seq<AcceptOption>, values: seq<Text>, i: nat, j: nat, r: seq<Text>)
    requires j <= |values|
  {
    && Ranked(opts, values, r)
    && forall v :: v in r <==> (v in values && FirstOption(opts, v) < i) || (v in values[..j] && FirstOption(opts, v) == i)
  }

  /** Some option takes v, and neither it nor an option before it has weight zero. */
  ghost predicate Reached(opts: seq<AcceptOption>, v: Text) {
    exists i :: 0 <= i < |opts| && Takes(opts[i], v) && forall j :: 0 <= j <= i ==> !Equal(opts[j].weight, ZERO)
  }

  /** In whatever order the options are, an offer is considered exactly when it is reached: stopping at the
      first wildcard loses nothing. */
  lemma ConsideredExactly(opts: seq<AcceptOption>, v: Text)
    ensures FirstOption(opts, v) < Considered(opts) <==> Reached(opts, v)
  {
    var k, f := Considered(opts), FirstOption(opts, v);
    ConsideredStops(opts);
    if f < k {
      assert Takes(opts[f], v);
    }
    if Reached(opts, v) {
      var i :| 0 <= i < |opts| && Takes(opts[i], v) && forall j :: 0 <= j <= i ==> !Equal(opts[j].weight, ZERO);
      assert f <= i;
      if k <= i {
        assert k > 0 && Takes(opts[k - 1], v);
      }
    }
  }

  ghost predicate TakenAbove(opts: seq<AcceptOption>, v: Text) {
    exists i :: 0 <= i < |opts| && Above(opts[i].weight, ZERO) && Takes(opts[i], v)
  }

  /** Taken by an option of negative weight, or NaN, that no option of weight zero stands before. */
  ghost predicate TakenOtherwise(opts: seq<AcceptOption>, v: Text) {
    exists i ::
      && 0 <= i < |opts| && Takes(opts[i], v)
      && (|| (Above(ZERO, opts[i].weight) && forall j :: 0 <= j < |opts| ==> !Equal(opts[j].weight, ZERO))
          || (opts[i].weight.NaN? && forall j :: 0 <= j < i ==> !Equal(opts[j].weight, ZERO)))
  }

  /** The same for sorted options, read off the weights. */
  ghost predicate Wanted(opts: seq<AcceptOption>, v: Text) {
    TakenAbove(opts, v) || TakenOtherwise(opts, v)
  }

  lemma Trichotomy(w: Weight)
    ensures Above(w, ZERO) || Equal(w, ZERO) || Above(ZERO, w) || w.NaN?
    ensures Above(ZERO, w) ==> !Equal(w, ZERO)
  {
  }

  /** When the options are sorted, an offer is considered exactly when it is wanted. */
  lemma ConsideredWhenSorted(opts: seq<AcceptOption>, v: Text)
    requires SortedOptions(opts)
    ensures FirstOption(opts, v) < Considered(opts) <==> Wanted(opts, v)
  {
    ConsideredExactly(opts, v);
    if Reached(opts, v) {
      var i :| 0 <= i < |opts| && Takes(opts[i], v) && forall j :: 0 <= j <= i ==> !Equal(opts[j].weight, ZERO);
      Trichotomy(opts[i].weight);
      if Above(ZERO, opts[i].weight) {
        forall j | 0 <= j < |opts| ensures !Equal(opts[j].weight, ZERO) {
          assert j <= i || !Less(opts[j], opts[i]);
        }
      }
      assert Wanted(opts, v);
    }
    if Wanted(opts, v) {
      var i :| && 0 <= i < |opts| && Takes(opts[i], v)
               && (|| Above(opts[i].weight, ZERO)
                   || (Above(ZERO, opts[i].weight) && forall j :: 0 <= j < |opts| ==> !Equal(opts[j].weight, ZERO))
                   || (opts[i].weight.NaN? && forall j :: 0 <= j < i ==> !Equal(opts[j].weight, ZERO)));
      forall j | 0 <= j <= i ensures !Equal(opts[j].weight, ZERO) {
        assert j == i || !Less(opts[i], opts[j]);
      }
      assert Reached(opts, v);
    }
  }

  /** So for an offer "chosen exactly when an option of positive weight takes it" fails only when the
      options that take the offer are all negative or NaN, and not cut off by one of weight zero. */
  lemma PositiveExactly(opts: seq<AcceptOption>, v: Text)
    requires SortedOptions(opts)
    ensures (FirstOption(opts, v) < Considered(opts) <==> TakenAbove(opts, v))
            <==>
            TakenAbove(opts, v) || !TakenOtherwise(opts, v)
  {
    ConsideredWhenSorted(opts, v);
  }

  /** A header "v;q=-1" or "v;q=NaN": the loops stop at weight zero only, so v is preferred, and accepted. */
  lemma NegativeWeightIsChosen(v: Text, w: Weight)
    requires w == Num(-1.0) || w == NaN
    ensures var opts := [AcceptOption(false, 0, [], false, v, w, false)];
            FirstOption(opts, v) < Considered(opts) && AcceptsSpec(opts, v) && !TakenAbove(opts, v)
  {
    var opts := [AcceptOption(false, 0, [], false, v, w, false)];
    assert Takes(opts[0], v) && Considered(opts[1..]) == 0;
  }

  lemma {:induction false} ConsideredStops(opts: seq<AcceptOption>)
    ensures var k := Considered(opts);
            && (forall i :: 0 <= i < k ==> !Equal(opts[i].weight, ZERO))
            && (forall i :: 0 <= i < k - 1 ==> !opts[i].wildcard)
            && (k < |opts| ==> Equal(opts[k].weight, ZERO) || (k > 0 && opts[k - 1].wildcard))
  {
    if opts != [] && !Equal(opts[0].weight, ZERO) && !opts[0].wildcard {
      ConsideredStops(opts[1..]);
    }
  }

  lemma {:induction false} ConsideredIs(opts: seq<AcceptOption>, k: nat)
    requires k <= |opts| && forall i :: 0 <= i < k ==> !Equal(opts[i].weight, ZERO)
    requires forall i :: 0 <= i < k - 1 ==> !opts[i].wildcard
    requires k == |opts| || Equal(opts[k].weight, ZERO) || (k > 0 && opts[k - 1].wildcard)
    ensures Considered(opts) == k
  {
    if k > 0 && !opts[0].wildcard {
      ConsideredIs(opts[1..], k - 1);
    }
  }

  // ----- the loops -----

  /** structure/slice.go:6-13 */
  method InStringSlice(xs: seq<Text>, s: Text) returns (r: bool)
    ensures r <==> s in xs
  {
    for i := 0 to |xs|
      invariant s !in xs[..i]
    {
      if xs[i] == s {
        return true;
      }
    }
    assert xs[..|xs|] == xs;
    r := false;
  }

  class Acceptable {
    var codings: bool
    var opts: seq<AcceptOption>

    constructor (codings: bool, opts: seq<AcceptOption>)
      ensures this.codings == codings && this.opts == opts
    {
      this.codings, this.opts := codings, opts;
    }

    /** With options: some considered option takes the value, and no identity option comes before it. */
    method Accepts(value: Text) returns (r: bool)
      ensures |opts| == 0 ==> (r <==> !codings || value == IDENTITY)
      ensures |opts| > 0 ==> (r <==> AcceptsSpec(opts, value))
      ensures |opts| > 0 && (forall i :: 0 <= i < |opts| ==> ParsedIdentity(opts[i])) ==>
                (r <==>
                   && FirstOption(opts, value) < Considered(opts)
                   && forall i :: 0 <= i < FirstOption(opts, value) ==> !opts[i].identity)
    {
      if forall i :: 0 <= i < |opts| ==> ParsedIdentity(opts[i]) {
        AcceptsDirectly(opts, value);
      }
      if |opts| == 0 {
        return !codings || value == IDENTITY;
      }
      for i := 0 to |opts|
        invariant AcceptsSpec(opts, value) == AcceptsSpec(opts[i..], value)
      {
        var opt := opts[i];
        assert opts[i..][0] == opt && opts[i..][1..] == opts[i + 1..];
        if Equal(opt.weight, ZERO) {
          return false;
        }
        if opt.identity {
          return value == IDENTITY;
        }
        if opt.wildcard {
          return true;
        }
        if opt.value == value {
          return true;
        }
        if opt.metaWildcard && opt.metaPrefix <= value {
          return true;
        }
      }
      r := false;
    }

    /** The inner loops at httputil/httputil.go:118-122 and 125-133 for option i. */
    method Collect(i: nat, values: seq<Text>, before: seq<Text>) returns (matches: seq<Text>)
      requires i < |opts| && Chosen(opts, values, i, 0, before)
      ensures Chosen(opts, values, i, |values|, matches)
    {
      var opt := opts[i];
      matches := before;
      for j := 0 to |values|
        invariant Chosen(opts, values, i, j, matches)
      {
        var value := values[j];
        var seen := InStringSlice(matches, value);
        ChosenNext(opts, values, i, j, matches);
        if opt.wildcard {
          if !seen {
            matches := matches + [value];
          }
        } else if opt.value == value {
          if !seen {
            matches := matches + [value];
          }
        } else if opt.metaWildcard && opt.metaPrefix <= value && !seen {
          matches := matches + [value];
        }
      }
    }

    /** Without options, the offers as they are, or identity alone for codings. With options: without
        duplicates, the offers some considered option takes, ordered by that option and then by offer. */
    method FindPreferred(values: seq<Text>) returns (matches: seq<Text>)
      ensures |opts| == 0 && codings ==> matches == if IDENTITY in values then [IDENTITY] else []
      ensures |opts| == 0 && !codings ==> matches == values
      ensures |opts| > 0 ==> Ranked(opts, values, matches)
      ensures |opts| > 0 ==> forall v :: v in matches <==> v in values && FirstOption(opts, v) < Considered(opts)
    {
      matches := [];
      if |opts| == 0 {
        if codings {
          var found := InStringSlice(values, IDENTITY);
          if found {
            return [IDENTITY];
          }
          return;
        }
        return values;
      }
      for i := 0 to |opts|
        invariant Chosen(opts, values, i, 0, matches)
        invariant forall k :: 0 <= k < i ==> !Equal(opts[k].weight, ZERO) && !opts[k].wildcard
      {
        if Equal(opts[i].weight, ZERO) {
          ConsideredIs(opts, i);
          return;
        }
        matches := Collect(i, values, matches);
        ChosenOption(opts, values, i, matches);
        if opts[i].wildcard {
          ConsideredIs(opts, i + 1);
          return;
        }
      }
      ConsideredIs(opts, |opts|);
    }
  }

  /** The scan of Accepts: the first option of weight zero, of kind identity, or that takes the value decides. */
  predicate AcceptsSpec(opts: seq<AcceptOption>, v: Text) {
    if opts == [] || Equal(opts[0].weight, ZERO) then false
    else if opts[0].identity then v == IDENTITY
    else Takes(opts[0], v) || AcceptsSpec(opts[1..], v)
  }

  /** Parse marks an option identity when its value is "identity", and then gives it no wildcard. */
  predicate ParsedIdentity(o: AcceptOption) {
    o.identity ==> o.value == IDENTITY && !o.wildcard && !o.metaWildcard
  }

  /** A value is accepted exactly when it is considered and no identity option stands before the option
      that takes it. */
  lemma {:induction false} AcceptsDirectly(opts: seq<AcceptOption>, v: Text)
    requires forall i :: 0 <= i < |opts| ==> ParsedIdentity(opts[i])
    ensures AcceptsSpec(opts, v) <==>
            FirstOption(opts, v) < Considered(opts) && forall i :: 0 <= i < FirstOption(opts, v) ==> !opts[i].identity
  {
    if opts != [] && !Equal(opts[0].weight, ZERO) && !Takes(opts[0], v) {
      assert FirstOption(opts, v) == 1 + FirstOption(opts[1..], v);
      if !opts[0].identity {
        AcceptsDirectly(opts[1..], v);
        assert forall i :: 0 < i <= FirstOption(opts[1..], v) && i < |opts| ==> opts[i] == opts[1..][i - 1];
      }
    }
  }

  /** So Accepts and FindPreferred give the same answer for a value exactly when no identity option stands
      before the first option that takes it, or it is not reached anyway. */
  lemma AcceptsAgreesExactly(opts: seq<AcceptOption>, v: Text)
    requires forall i :: 0 <= i < |opts| ==> ParsedIdentity(opts[i])
    ensures (AcceptsSpec(opts, v) <==> FirstOption(opts, v) < Considered(opts))
            <==>
            (Reached(opts, v) ==> forall i :: 0 <= i < FirstOption(opts, v) ==> !opts[i].identity)
  {
    AcceptsDirectly(opts, v);
    ConsideredExactly(opts, v);
  }

  /** On sorted options that condition, too, can be read off the weights. */
  lemma AcceptsAgreesWhenSorted(opts: seq<AcceptOption>, v: Text)
    requires SortedOptions(opts) && forall i :: 0 <= i < |opts| ==> ParsedIdentity(opts[i])
    ensures (AcceptsSpec(opts, v) <==> FirstOption(opts, v) < Considered(opts))
            <==>
            (Wanted(opts, v) ==> forall i :: 0 <= i < FirstOption(opts, v) ==> !opts[i].identity)
  {
    AcceptsDirectly(opts, v);
    ConsideredWhenSorted(opts, v);
  }

  /** "identity, gzip": gzip is preferred when offered, and yet not accepted. */
  lemma IdentityHidesWhatFollows(gzip: Text)
    requires gzip != IDENTITY
    ensures var opts := [AcceptOption(true, 0, [], false, IDENTITY, Num(1.0), false), AcceptOption(false, 1, [], false, gzip, Num(1.0), false)];
            !AcceptsSpec(opts, gzip) && FirstOption(opts, gzip) < Considered(opts)
  {
  }

  /** Offer j is new exactly when option i is the first to take it and no earlier offer equals it. */
  lemma ChosenNext(opts: seq<AcceptOption>, values: seq<Text>, i: nat, j: nat, r: seq<Text>)
    requires i < |opts| && j < |values| && Chosen(opts, values, i, j, r)
    ensures Chosen(opts, values, i, j + 1, if Takes(opts[i], values[j]) && values[j] !in r then r + [values[j]] else r)
  {
    var v := values[j];
    assert values[..j + 1] == values[..j] + [v];
    assert v in values;
    if Takes(opts[i], v) && v !in r {
      assert FirstOption(opts, v) == i;
      assert v !in values[..j];
      assert FirstOffer(values, v) == j;
      forall a | 0 <= a < |r| ensures Before(opts, values, r[a], v) {
        assert r[a] in r;
        if FirstOption(opts, r[a]) == i {
          var k :| 0 <= k < j && values[..j][k] == r[a];
          assert values[k] == r[a];
        }
      }
    }
  }

  lemma ChosenOption(opts: seq<AcceptOption>, values: seq<Text>, i: nat, r: seq<Text>)
    requires Chosen(opts, values, i, |values|, r)
    ensures Chosen(opts, values, i + 1, 0, r)
  {
    assert values[..|values|] == values;
  }
}
