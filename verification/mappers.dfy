/** The client's mappers from server payloads to client records: the hero's
    characteristics and the shop items grouped by category. A thrown error
    is an `Error` result. */
module Mappers {
  import opened Wrappers
  import opened JsValues
  import HeroStore
  import ItemPath

  datatype MapError = InvalidHeroData | MissingHeroId | InvalidItemsData | MissingItems

  /** The hero's keys in the client record and their defaults. */
  const HeroKeys: set<string> :=
    {"heroId", "max-health", "health-regen", "max-mana", "mana-regen", "damage", "vampirism", "movement-speed", "income"}

  /** `HeroStats`, the client's record of the hero's characteristics. */
  datatype HeroStats = HeroStats(
    heroId: Json, maxHealth: Json, healthRegen: Json, maxMana: Json, manaRegen: Json,
    damage: Json, vampirism: Json, movementSpeed: Json, income: Json)

  /** The record under its kebab-case keys, as the hero store holds it. */
  function ToStore(h: HeroStats): (m: HeroStore.HeroStats)
    ensures m.Keys == HeroKeys
    ensures m["heroId"] == h.heroId && m["damage"] == h.damage
  {
    map[
      "heroId" := h.heroId, "max-health" := h.maxHealth, "health-regen" := h.healthRegen,
      "max-mana" := h.maxMana, "mana-regen" := h.manaRegen, "damage" := h.damage,
      "vampirism" := h.vampirism, "movement-speed" := h.movementSpeed, "income" := h.income]
  }

  /** `mapHeroData(data)`: refuses anything but an object or array, and a
      payload without a truthy `heroId`; otherwise renames the fields,
      replacing only missing or null values with the defaults. */
  function MapHeroData(data: Json): (r: Result<HeroStats, MapError>)
    ensures !IsObject(data) <==> r == Failure(InvalidHeroData)
    ensures IsObject(data) && !Truthy(Get(data, "heroId")) <==> r == Failure(MissingHeroId)
    ensures r.Success? ==>
              && r.value.heroId == Get(data, "heroId") && Truthy(r.value.heroId)
              && r.value.maxHealth == Coalesce(Get(data, "maxHealth"), Num(100.0))
              && r.value.healthRegen == Coalesce(Get(data, "healthRegen"), Num(1.0))
              && r.value.maxMana == Coalesce(Get(data, "maxEnergy"), Num(50.0))
              && r.value.manaRegen == Coalesce(Get(data, "energyRegen"), Num(0.5))
              && r.value.damage == Coalesce(Get(data, "damage"), Num(10.0))
              && r.value.vampirism == Coalesce(Get(data, "vampirism"), Num(0.0))
              && r.value.movementSpeed == Coalesce(Get(data, "movementSpeed"), Num(5.0))
              && r.value.income == Coalesce(Get(data, "currentIncome"), Num(5.0))
  {
    if !IsObject(data) then Failure(InvalidHeroData)
    else if !Truthy(Get(data, "heroId")) then Failure(MissingHeroId)
    else Success(HeroStats(
      Get(data, "heroId"),
      Coalesce(Get(data, "maxHealth"), Num(100.0)),
      Coalesce(Get(data, "healthRegen"), Num(1.0)),
      Coalesce(Get(data, "maxEnergy"), Num(50.0)),
      Coalesce(Get(data, "energyRegen"), Num(0.5)),
      Coalesce(Get(data, "damage"), Num(10.0)),
      Coalesce(Get(data, "vampirism"), Num(0.0)),
      Coalesce(Get(data, "movementSpeed"), Num(5.0)),
      Coalesce(Get(data, "currentIncome"), Num(5.0))))
  }

  /** A stored 0 is kept, unlike with `||`: only absent or null fields take
      their default. */
  lemma ZeroIsKept(fields: seq<(string, Json)>)
    requires Truthy(Lookup(fields, "heroId")) && Lookup(fields, "damage") == Num(0.0)
    ensures MapHeroData(Obj(fields)).Success?
    ensures MapHeroData(Obj(fields)).value.damage == Num(0.0)
  {
  }

  /** A payload holding only its id gets every default. */
  lemma OnlyIdGetsDefaults(id: Json)
    requires Truthy(id)
    ensures MapHeroData(Obj([("heroId", id)])) ==
              Success(HeroStats(id, Num(100.0), Num(1.0), Num(50.0), Num(0.5), Num(10.0), Num(0.0), Num(5.0), Num(5.0)))
  {
  }

  /** Loading a mapped record into the store and updating one of its
      characteristics keeps the record's nine keys. */
  lemma StoredRecordKeepsKeys(data: Json, key: string, value: real)
    requires MapHeroData(data).Success? && key in HeroKeys
    ensures var st := HeroStore.UpdateStat(HeroStore.SetStats(HeroStore.Init(), ToStore(MapHeroData(data).value)), key, value);
            st.stats.Some? && st.stats.value.Keys == HeroKeys && st.stats.value[key] == Num(value)
  {
  }

  /** `PRICE_MULTIPLIER`. */
  const PriceMultiplier: real := 1.15

  /** The least integer at or above `x`. */
  function Ceil(x: real): (k: int)
    ensures k as real >= x && (k - 1) as real < x
  {
    -((-x).Floor)
  }

  /** An item's `priceFormula`: the price times 1.15, rounded up. */
  function PriceFormula(price: real): (p: int)
    ensures p as real >= price * PriceMultiplier && (p - 1) as real < price * PriceMultiplier
  {
    Ceil(price * PriceMultiplier)
  }

  /** A positive whole price always grows by at least one. */
  lemma PriceGrows(price: nat)
    requires price > 0
    ensures PriceFormula(price as real) >= price + 1
  {
  }

  /** `ShopItem` without its price function, which is `PriceFormula` for
      every item. `id` is the value `String` is applied to. */
  datatype ShopItem = ShopItem(
    id: Json, title: Json, img: string,
    value: Json, baseValue: Json, level: Json, basePrice: Json, currentPrice: Json)

  /** Whether a raw entry yields an item: an object with a truthy name. */
  predicate ValidRawItem(raw: Json)
    ensures ValidRawItem(raw) ==> raw.Obj? && Truthy(Lookup(raw.fields, "itemName"))
    ensures raw.Arr? ==> !ValidRawItem(raw)
  {
    IsObject(raw) && Truthy(Get(raw, "itemName"))
  }

  /** The item built from a raw entry stored under `key`. */
  function MakeItem(key: string, raw: Json): (it: ShopItem)
    ensures it.id == Coalesce(Get(raw, "itemId"), Str(key))
    ensures it.title == Get(raw, "itemName") && it.img == ItemPath.GetItemImagePath(it.title)
    ensures it.value == Coalesce(Coalesce(Get(raw, "currentValue"), Get(raw, "baseValue")), Num(0.0))
    ensures it.baseValue == Coalesce(Get(raw, "baseValue"), Num(0.0))
    ensures it.level == Coalesce(Get(raw, "currentLevel"), Num(1.0))
    ensures it.basePrice == it.currentPrice == Coalesce(Get(raw, "currentPrice"), Num(100.0))
  {
    var title := Get(raw, "itemName");
    var price := Coalesce(Get(raw, "currentPrice"), Num(100.0));
    ShopItem(Coalesce(Get(raw, "itemId"), Str(key)), title, ItemPath.GetItemImagePath(title),
             Coalesce(Coalesce(Get(raw, "currentValue"), Get(raw, "baseValue")), Num(0.0)),
             Coalesce(Get(raw, "baseValue"), Num(0.0)),
             Coalesce(Get(raw, "currentLevel"), Num(1.0)),
             price, price)
  }

  ghost predicate NoneValid(entries: seq<(string, Json)>) {
    forall i :: 0 <= i < |entries| ==> !ValidRawItem(entries[i].1)
  }

  lemma NoneValidCons(entries: seq<(string, Json)>)
    requires |entries| > 0
    ensures NoneValid(entries) <==> !ValidRawItem(entries[0].1) && NoneValid(entries[1..])
  {
    assert forall i :: 0 <= i < |entries[1..]| ==> entries[1..][i] == entries[i + 1];
  }

  /** Adds `d` to every index. */
  function Shift(ks: seq<nat>, d: nat): (r: seq<nat>)
    ensures |r| == |ks| && forall k :: 0 <= k < |r| ==> r[k] == ks[k] + d
  {
    seq(|ks|, k requires 0 <= k < |ks| => ks[k] + d)
  }

  /** The positions of the valid entries, in increasing order
      (`ValidIndicesSound`, `ValidIndicesIncrease`, `ValidIndicesComplete`). */
  function ValidIndices(entries: seq<(string, Json)>): (r: seq<nat>)
    ensures forall k :: 0 <= k < |r| ==> r[k] < |entries|
  {
    if |entries| == 0 then []
    else
      var rest := Shift(ValidIndices(entries[1..]), 1);
      if ValidRawItem(entries[0].1) then [0] + rest else rest
  }

  /** Every listed position holds a valid entry. */
  lemma {:induction false} ValidIndicesSound(entries: seq<(string, Json)>)
    ensures forall k :: 0 <= k < |ValidIndices(entries)| ==> ValidRawItem(entries[ValidIndices(entries)[k]].1)
    decreases |entries|
  {
    if |entries| > 0 {
      var tail := entries[1..];
      ValidIndicesSound(tail);
      var t := ValidIndices(tail);
      var rest := Shift(t, 1);
      forall k | 0 <= k < |rest| ensures ValidRawItem(entries[rest[k]].1) {
        assert entries[rest[k]] == tail[t[k]];
      }
      var r := ValidIndices(entries);
      if ValidRawItem(entries[0].1) {
        forall k | 0 <= k < |r| ensures ValidRawItem(entries[r[k]].1) {
          if k > 0 { assert r[k] == rest[k - 1]; }
        }
      }
    }
  }

  /** The positions increase strictly, so no entry yields two items. */
  lemma {:induction false} ValidIndicesIncrease(entries: seq<(string, Json)>)
    ensures forall k, l :: 0 <= k < l < |ValidIndices(entries)| ==> ValidIndices(entries)[k] < ValidIndices(entries)[l]
    decreases |entries|
  {
    if |entries| > 0 {
      ValidIndicesIncrease(entries[1..]);
      var rest := Shift(ValidIndices(entries[1..]), 1);
      var r := ValidIndices(entries);
      if ValidRawItem(entries[0].1) {
        forall k, l | 0 <= k < l < |r| ensures r[k] < r[l] {
          assert r[l] == rest[l - 1];
          if k > 0 { assert r[k] == rest[k - 1]; }
        }
      }
    }
  }

  /** Every valid entry is listed. */
  lemma {:induction false} ValidIndicesComplete(entries: seq<(string, Json)>)
    ensures forall j :: 0 <= j < |entries| && ValidRawItem(entries[j].1) ==> j in ValidIndices(entries)
    decreases |entries|
  {
    if |entries| > 0 {
      var tail := entries[1..];
      ValidIndicesComplete(tail);
      var t := ValidIndices(tail);
      var rest := Shift(t, 1);
      forall j | 1 <= j < |entries| && ValidRawItem(entries[j].1) ensures j in rest {
        assert tail[j - 1] == entries[j];
        var k :| 0 <= k < |t| && t[k] == j - 1;
        assert rest[k] == j;
      }
    }
  }

  /** The inner loop: one item per valid entry, in the entries' order. */
  function Items(entries: seq<(string, Json)>): (items: seq<ShopItem>)
    ensures |items| <= |entries|
    ensures NoneValid(entries) <==> items == []
    ensures |items| == |ValidIndices(entries)|
    ensures forall k :: 0 <= k < |items| ==>
              var j := ValidIndices(entries)[k];
              items[k] == MakeItem(entries[j].0, entries[j].1)
  {
    if |entries| == 0 then []
    else
      var rest := Items(entries[1..]);
      NoneValidCons(entries);
      ItemsCons(entries, rest);
      if ValidRawItem(entries[0].1) then
        [MakeItem(entries[0].0, entries[0].1)] + rest
      else rest
  }

  /** The tail's items line up with the shifted tail positions. */
  lemma ItemsCons(entries: seq<(string, Json)>, rest: seq<ShopItem>)
    requires |entries| > 0
    requires |rest| == |ValidIndices(entries[1..])|
    requires forall k :: 0 <= k < |rest| ==>
               var j := ValidIndices(entries[1..])[k]; rest[k] == MakeItem(entries[1..][j].0, entries[1..][j].1)
    ensures var r := ValidIndices(entries);
            var items := if ValidRawItem(entries[0].1) then [MakeItem(entries[0].0, entries[0].1)] + rest else rest;
            && |items| == |r|
            && forall k :: 0 <= k < |items| ==> items[k] == MakeItem(entries[r[k]].0, entries[r[k]].1)
  {
    var t := ValidIndices(entries[1..]);
    var shifted := Shift(t, 1);
    forall k | 0 <= k < |rest| ensures rest[k] == MakeItem(entries[shifted[k]].0, entries[shifted[k]].1) {
      assert entries[1..][t[k]] == entries[shifted[k]];
    }
    var r := ValidIndices(entries);
    if ValidRawItem(entries[0].1) {
      var items := [MakeItem(entries[0].0, entries[0].1)] + rest;
      assert r == [0] + shifted;
      forall k | 0 <= k < |items| ensures items[k] == MakeItem(entries[r[k]].0, entries[r[k]].1) {
        if k > 0 { assert items[k] == rest[k - 1] && r[k] == shifted[k - 1]; }
      }
    }
  }

  /** Every item comes from an entry with a truthy name, which is its title. */
  lemma ItemsHaveNames(entries: seq<(string, Json)>)
    ensures forall i :: 0 <= i < |Items(entries)| ==> Truthy(Items(entries)[i].title)
  {
    var items, r := Items(entries), ValidIndices(entries);
    ValidIndicesSound(entries);
    forall i | 0 <= i < |items| ensures Truthy(items[i].title) {
      assert ValidRawItem(entries[r[i]].1);
    }
  }

  predicate IsDigit(c: char) { '0' <= c <= '9' }

  function DigitValue(c: char): (d: nat)
    requires IsDigit(c)
    ensures d < 10
  {
    c as int - '0' as int
  }

  predicate AllDigits(s: string) {
    forall i :: 0 <= i < |s| ==> IsDigit(s[i])
  }

  /** The value of a run of decimal digits, read as an integer. */
  function DigitsValue(s: string): (v: nat)
    requires AllDigits(s)
  {
    if |s| == 0 then 0 else 10 * DigitsValue(s[..|s| - 1]) + DigitValue(s[|s| - 1])
  }

  /** `v` times ten to the `n`, by `n` multiplications by ten. */
  function Scale(v: real, n: nat): (r: real)
    ensures n == 0 ==> r == v
  {
    if n == 0 then v else 10.0 * Scale(v, n - 1)
  }

  lemma {:induction false} ScaleAdd(a: real, b: real, n: nat)
    ensures Scale(a + b, n) == Scale(a, n) + Scale(b, n)
    decreases n
  {
    if n > 0 {
      ScaleAdd(a, b, n - 1);
    }
  }

  /** Scaling a tenth up `n + 1` times is scaling the whole up `n` times. */
  lemma {:induction false} ScaleTenth(x: real, n: nat)
    ensures Scale(x / 10.0, n + 1) == Scale(x, n)
    decreases n
  {
    if n > 0 {
      ScaleTenth(x, n - 1);
    }
  }

  /** The leading digit of `s` counts ten to the `|s| - 1` times. */
  lemma {:induction false} DigitsValueCons(s: string)
    requires AllDigits(s) && |s| > 0
    ensures DigitsValue(s) as real == Scale(DigitValue(s[0]) as real, |s| - 1) + DigitsValue(s[1..]) as real
    decreases |s|
  {
    if |s| > 1 {
      var init := s[..|s| - 1];
      DigitsValueCons(init);
      assert init[1..] == s[1..][..|s| - 2];
    }
  }

  /** The value of the digits after a decimal point: the digits read as a
      whole number, divided by ten to the number of digits. */
  function FracValue(s: string): (v: real)
    requires AllDigits(s)
    ensures 0.0 <= v < 1.0
    ensures |s| == 0 ==> v == 0.0
  {
    if |s| == 0 then 0.0 else (DigitValue(s[0]) as real + FracValue(s[1..])) / 10.0
  }

  /** Scaled up by ten to the number of digits, the fraction is the digits
      read as a whole number. */
  lemma {:induction false} FracValueScaled(s: string)
    requires AllDigits(s)
    ensures Scale(FracValue(s), |s|) == DigitsValue(s) as real
    decreases |s|
  {
    if |s| > 0 {
      var d, rest := DigitValue(s[0]) as real, FracValue(s[1..]);
      FracValueScaled(s[1..]);
      DigitsValueCons(s);
      ScaleTenth(d + rest, |s| - 1);
      ScaleAdd(d, rest, |s| - 1);
    }
  }

  /** An unsigned decimal: digits, at most one point, at least one digit. */
  function Unsigned(u: string): (r: Option<real>)
    ensures r.Some? ==> r.value >= 0.0
    ensures AllDigits(u) ==> (r.Some? <==> |u| > 0)
    ensures AllDigits(u) && |u| > 0 ==> r == Some(DigitsValue(u) as real)
  {
    if AllDigits(u) then (if |u| == 0 then None else Some(DigitsValue(u) as real))
    else
      var i := PointAt(u);
      if i < |u| && AllDigits(u[..i]) && AllDigits(u[i + 1..]) && |u| > 1 then
        Some(DigitsValue(u[..i]) as real + FracValue(u[i + 1..]))
      else None
  }

  /** The position of the first decimal point, `|u|` if there is none. */
  function PointAt(u: string): (i: nat)
    ensures i <= |u| && (i < |u| ==> u[i] == '.')
    ensures forall j :: 0 <= j < i ==> u[j] != '.'
  {
    if |u| == 0 || u[0] == '.' then 0 else 1 + PointAt(u[1..])
  }

  /** JavaScript's conversion of a string to a number, for the forms a
      price table holds: surrounding white space is ignored, an empty
      string is 0, and otherwise an optional sign precedes an unsigned
      decimal. `None` stands for `NaN`. */
  function StringToNumber(s: string): (r: Option<real>)
    ensures ItemPath.Trim(s) == "" ==> r == Some(0.0)
    ensures var t := ItemPath.Trim(s);
            |t| > 0 && t[0] == '-' ==> r == (match Unsigned(t[1..]) case Some(v) => Some(-v) case None => None)
    ensures var t := ItemPath.Trim(s);
            |t| > 0 && t[0] == '+' ==> r == Unsigned(t[1..])
    ensures var t := ItemPath.Trim(s);
            |t| > 0 && t[0] != '-' && t[0] != '+' ==> r == Unsigned(t)
  {
    var t := ItemPath.Trim(s);
    if |t| == 0 then Some(0.0)
    else if t[0] == '-' then
      match Unsigned(t[1..])
      case Some(v) => Some(-v)
      case None => None
    else if t[0] == '+' then Unsigned(t[1..])
    else Unsigned(t)
  }

  /** The sort key of `a.baseValue - b.baseValue`: the numeric value of a
      number, a boolean or a plainly written decimal string. Every other
      value counts as 0. Among those, exponent, hexadecimal, binary and
      octal strings, `Infinity` and arrays of at most one element do have
      numbers in JavaScript; only other strings, objects and longer arrays
      give `NaN`. */
  function Key(it: ShopItem): (k: real)
    ensures it.baseValue.Num? ==> k == it.baseValue.n
    ensures it.baseValue == Bool(true) ==> k == 1.0
    ensures it.baseValue.Str? && StringToNumber(it.baseValue.s).Some? ==> k == StringToNumber(it.baseValue.s).value
    ensures it.baseValue.Str? && StringToNumber(it.baseValue.s).None? ==> k == 0.0
  {
    match it.baseValue
    case Num(n) => n
    case Bool(b) => if b then 1.0 else 0.0
    case Str(s) => (match StringToNumber(s) case Some(v) => v case None => 0.0)
    case _ => 0.0
  }

  /** A decimal with a point reads as its whole part plus its fraction;
      the point is the only one, so there is no other way to split it. */
  lemma UnsignedDecimal(u: string, i: nat)
    requires i < |u| && u[i] == '.' && AllDigits(u[..i]) && AllDigits(u[i + 1..])
    requires |u| > 1
    ensures Unsigned(u) == Some(DigitsValue(u[..i]) as real + FracValue(u[i + 1..]))
  {
    assert !IsDigit(u[i]);
    assert PointAt(u) == i;
  }

  /** A digit is not white space. */
  lemma DigitsHaveNoSpace(s: string)
    requires AllDigits(s)
    ensures forall c :: c in s ==> !ItemPath.IsSpace(c)
  {
  }

  /** Reading back a rendered whole number gives the number. */
  lemma {:induction false} DigitsOfNat(n: nat)
    ensures AllDigits(JsValues.NatToString(n))
    ensures DigitsValue(JsValues.NatToString(n)) == n
    decreases n
  {
    var s := JsValues.NatToString(n);
    if n >= 10 {
      DigitsOfNat(n / 10);
      assert s[..|s| - 1] == JsValues.NatToString(n / 10);
    }
  }

  /** A whole number written out in decimal converts back to itself. */
  lemma NumeralRoundTrip(n: nat)
    ensures StringToNumber(JsValues.NatToString(n)) == Some(n as real)
  {
    var s := JsValues.NatToString(n);
    DigitsOfNat(n);
    DigitsHaveNoSpace(s);
    assert ItemPath.Trim(s) == s;
  }

  /** So does a negative one. */
  lemma NegativeNumeralRoundTrip(n: nat)
    ensures StringToNumber("-" + JsValues.NatToString(n)) == Some(-(n as real))
  {
    var s := JsValues.NatToString(n);
    DigitsOfNat(n);
    DigitsHaveNoSpace(s);
    assert ItemPath.Trim("-" + s) == "-" + s;
    assert ("-" + s)[1..] == s;
  }

  /** A whole number, a point and a digit string convert back to the
      number plus the fraction the digits stand for. */
  lemma DecimalRoundTrip(n: nat, f: string)
    requires AllDigits(f)
    ensures StringToNumber(JsValues.NatToString(n) + "." + f)
              == Some(n as real + FracValue(f))
  {
    DigitsOfNat(n);
    DecimalReads(JsValues.NatToString(n), f, n);
  }

  /** Digits, a point and digits read as the whole part plus the fraction. */
  lemma DecimalReads(w: string, f: string, n: nat)
    requires AllDigits(w) && |w| > 0 && AllDigits(f) && DigitsValue(w) == n
    ensures StringToNumber(w + "." + f) == Some(n as real + FracValue(f))
  {
    JoinParts(w, f);
    DecimalParts(w + "." + f, w, f, n);
  }

  /** `u` is `w`, a point, then `f`. */
  predicate Joined(u: string, w: string, f: string) {
    |u| == |w| + 1 + |f| && u[|w|] == '.' && u[..|w|] == w && u[|w| + 1..] == f
  }

  lemma JoinParts(w: string, f: string)
    ensures Joined(w + "." + f, w, f)
  {
    var u := w + "." + f;
    assert u[..|w|] == w;
    assert u[|w| + 1..] == f;
  }

  /** The same reading, for a string known only through its parts. */
  lemma DecimalParts(u: string, w: string, f: string, n: nat)
    requires AllDigits(w) && |w| > 0 && AllDigits(f) && DigitsValue(w) == n
    requires Joined(u, w, f)
    ensures StringToNumber(u) == Some(n as real + FracValue(f))
  {
    UnsignedParts(u, w, f);
    PartsTrimmed(u, w, f);
    PlainNumber(u, n as real + FracValue(f));
  }

  lemma UnsignedParts(u: string, w: string, f: string)
    requires AllDigits(w) && |w| > 0 && AllDigits(f) && Joined(u, w, f)
    ensures Unsigned(u) == Some(DigitsValue(w) as real + FracValue(f))
  {
    UnsignedDecimal(u, |w|);
  }

  /** An unsigned decimal with nothing to trim converts to the value it
      reads as. */
  lemma PlainNumber(t: string, v: real)
    requires ItemPath.Trim(t) == t && |t| > 0 && t[0] != '-' && t[0] != '+'
    requires Unsigned(t) == Some(v)
    ensures StringToNumber(t) == Some(v)
  {
  }

  /** Only digits and points make a number. */
  lemma {:induction false} UnsignedChars(u: string)
    requires Unsigned(u).Some?
    ensures |u| > 0 && forall i :: 0 <= i < |u| ==> IsDigit(u[i]) || u[i] == '.'
  {
    if !AllDigits(u) {
      var i := PointAt(u);
      forall j | 0 <= j < |u|
        ensures IsDigit(u[j]) || u[j] == '.'
      {
        if j < i {
          assert u[j] == u[..i][j];
        } else if j > i {
          assert u[j] == u[i + 1..][j - i - 1];
        }
      }
    }
  }

  /** A written decimal has no white space to trim, and does not start
      with a sign. */
  lemma PartsTrimmed(u: string, w: string, f: string)
    requires AllDigits(w) && |w| > 0 && AllDigits(f) && Joined(u, w, f)
    ensures ItemPath.Trim(u) == u
    ensures u[0] != '-' && u[0] != '+'
  {
    assert u[0] == u[..|w|][0];
    forall c | c in u
      ensures !ItemPath.IsSpace(c)
    {
      var k :| 0 <= k < |u| && u[k] == c;
      if k < |w| {
        assert u[k] == u[..|w|][k];
      } else if k > |w| {
        assert u[k] == u[|w| + 1..][k - |w| - 1];
      }
    }
  }

  /** "10.50" is ten and a half. */
  lemma TenAndAHalf()
    ensures StringToNumber("10.50") == Some(10.5)
  {
    assert JsValues.NatToString(10) == "10";
    assert "10.50" == JsValues.NatToString(10) + "." + "50";
    DecimalRoundTrip(10, "50");
  }

  /** A numeric base value sorts by its number, as the subtraction does. */
  lemma NumeralKey(it: ShopItem, n: nat)
    requires it.baseValue == Str(JsValues.NatToString(n))
    ensures Key(it) == n as real
  {
    NumeralRoundTrip(n);
  }

  /** Base values "5" and "3" sort as 3 before 5, not as two zeros. */
  lemma NumeralsSortByValue(a: ShopItem, b: ShopItem)
    requires a.baseValue == Str("5") && b.baseValue == Str("3")
    ensures SortByKey([a, b]) == [b, a]
  {
    assert JsValues.NatToString(5) == "5";
    assert JsValues.NatToString(3) == "3";
    NumeralKey(a, 5);
    NumeralKey(b, 3);
    SortPair(a, b);
  }

  /** Two items sort by their keys. */
  lemma SortPair(a: ShopItem, b: ShopItem)
    requires Key(b) < Key(a)
    ensures SortByKey([a, b]) == [b, a]
  {
    assert SortByKey([b]) == [b];
    assert [a, b][1..] == [b];
  }

  ghost predicate SortedByKey(s: seq<ShopItem>) {
    forall i, j :: 0 <= i < j < |s| ==> Key(s[i]) <= Key(s[j])
  }

  /** Inserts `x` before the first element whose key is not smaller. */
  function Insert(x: ShopItem, s: seq<ShopItem>): (r: seq<ShopItem>)
    requires SortedByKey(s)
    ensures SortedByKey(r) && multiset(r) == multiset(s) + multiset{x}
    ensures forall i :: 0 <= i < |r| ==> r[i] == x || r[i] in s
    ensures |s| == 0 || Key(x) <= Key(s[0]) ==> r == [x] + s
  {
    if |s| == 0 || Key(x) <= Key(s[0]) then [x] + s
    else
      var t := Insert(x, s[1..]);
      assert s == [s[0]] + s[1..];
      assert multiset(s) == multiset{s[0]} + multiset(s[1..]);
      HeadBelowInsert(x, s, t);
      [s[0]] + t
  }

  /** A sorted list's head stays below whatever is inserted after it. */
  lemma HeadBelowInsert(x: ShopItem, s: seq<ShopItem>, t: seq<ShopItem>)
    requires SortedByKey(s) && |s| > 0 && Key(s[0]) < Key(x)
    requires SortedByKey(t) && forall i :: 0 <= i < |t| ==> t[i] == x || t[i] in s[1..]
    ensures SortedByKey([s[0]] + t)
  {
    forall i | 0 <= i < |t| ensures Key(s[0]) <= Key(t[i]) {
      if t[i] != x {
        var j :| 0 <= j < |s[1..]| && s[1..][j] == t[i];
        assert s[j + 1] == t[i];
      }
    }
    var r := [s[0]] + t;
    forall i, j | 0 <= i < j < |r| ensures Key(r[i]) <= Key(r[j]) {
      if i > 0 {
        assert r[i] == t[i - 1] && r[j] == t[j - 1];
      } else {
        assert r[j] == t[j - 1];
      }
    }
  }

  /** `items.sort((a, b) => a.baseValue - b.baseValue)`: the same items,
      ordered by key. */
  function SortByKey(s: seq<ShopItem>): (r: seq<ShopItem>)
    ensures SortedByKey(r) && multiset(r) == multiset(s)
  {
    if |s| == 0 then []
    else
      assert s == [s[0]] + s[1..];
      Insert(s[0], SortByKey(s[1..]))
  }

  /** Sorting a sorted category changes nothing, so sorting is idempotent. */
  lemma {:induction false} SortedIsFixed(s: seq<ShopItem>)
    requires SortedByKey(s)
    ensures SortByKey(s) == s
  {
    if |s| > 0 {
      SortedIsFixed(s[1..]);
    }
  }

  lemma SortIdempotent(s: seq<ShopItem>)
    ensures SortByKey(SortByKey(s)) == SortByKey(s)
  {
    SortedIsFixed(SortByKey(s));
  }

  /** The outer loop before sorting: each object category with at least one
      valid item, with its items in their original order. */
  function Grouped(categories: seq<(string, Json)>): (g: seq<(string, seq<ShopItem>)>)
    ensures forall i :: 0 <= i < |g| ==> |g[i].1| > 0
    ensures |g| <= |categories|
  {
    if |categories| == 0 then []
    else
      var rest := Grouped(categories[1..]);
      var (name, v) := categories[0];
      var items := Items(Members(v));
      if IsObject(v) && |items| > 0 then [(name, items)] + rest else rest
  }

  /** The outer loop as written: the same categories with each item list
      sorted by base value. */
  function Categories(categories: seq<(string, Json)>): (r: seq<(string, seq<ShopItem>)>)
    ensures var g := Grouped(categories);
            && |r| == |g|
            && forall i :: 0 <= i < |r| ==>
                 r[i].0 == g[i].0 && SortedByKey(r[i].1) && multiset(r[i].1) == multiset(g[i].1) && |r[i].1| > 0
  {
    if |categories| == 0 then []
    else
      var rest := Categories(categories[1..]);
      var (name, v) := categories[0];
      var items := Items(Members(v));
      if IsObject(v) && |items| > 0 then
        var sorted := SortByKey(items);
        CategoriesCons(name, sorted, items, rest, Grouped(categories[1..]));
        [(name, sorted)] + rest
      else rest
  }

  /** The per-category relation survives putting one more category first. */
  lemma CategoriesCons(name: string, sorted: seq<ShopItem>, items: seq<ShopItem>,
                       rest: seq<(string, seq<ShopItem>)>, grest: seq<(string, seq<ShopItem>)>)
    requires SortedByKey(sorted) && multiset(sorted) == multiset(items) && |sorted| > 0
    requires |rest| == |grest|
    requires forall i :: 0 <= i < |rest| ==>
               rest[i].0 == grest[i].0 && SortedByKey(rest[i].1) && multiset(rest[i].1) == multiset(grest[i].1) && |rest[i].1| > 0
    ensures var r := [(name, sorted)] + rest;
            var g := [(name, items)] + grest;
            && |r| == |g|
            && forall i :: 0 <= i < |r| ==>
                 r[i].0 == g[i].0 && SortedByKey(r[i].1) && multiset(r[i].1) == multiset(g[i].1) && |r[i].1| > 0
  {
    var r := [(name, sorted)] + rest;
    var g := [(name, items)] + grest;
    forall i | 0 <= i < |r|
      ensures r[i].0 == g[i].0 && SortedByKey(r[i].1) && multiset(r[i].1) == multiset(g[i].1) && |r[i].1| > 0
    {
      if i > 0 {
        assert r[i] == rest[i - 1] && g[i] == grest[i - 1];
      }
    }
  }

  /** `mapItemsData(data)`: refuses a payload that is not an object or has
      no `items` object; otherwise every category object that yields an item
      appears, in order, with its valid items sorted by base value. */
  function MapItemsData(data: Json): (r: Result<seq<(string, seq<ShopItem>)>, MapError>)
    ensures !IsObject(data) <==> r == Failure(InvalidItemsData)
    ensures IsObject(data) && !IsObject(Get(data, "items")) <==> r == Failure(MissingItems)
    ensures r.Success? ==>
              var g := Grouped(Members(Get(data, "items")));
              && |r.value| == |g|
              && forall i :: 0 <= i < |r.value| ==>
                   r.value[i].0 == g[i].0 && SortedByKey(r.value[i].1) && multiset(r.value[i].1) == multiset(g[i].1)
  {
    if !IsObject(data) then Failure(InvalidItemsData)
    else if !IsObject(Get(data, "items")) then Failure(MissingItems)
    else Success(Categories(Members(Get(data, "items"))))
  }

  /** Whether a category value holds at least one valid entry. */
  ghost predicate HasValidItem(v: Json) {
    exists i :: 0 <= i < |Members(v)| && ValidRawItem(Members(v)[i].1)
  }

  ghost function Names(g: seq<(string, seq<ShopItem>)>): set<string> {
    set i | 0 <= i < |g| :: g[i].0
  }

  /** The categories the payload lists as objects holding a valid entry. */
  ghost function KeptNames(categories: seq<(string, Json)>): set<string> {
    set j | 0 <= j < |categories| && IsObject(categories[j].1) && HasValidItem(categories[j].1) :: categories[j].0
  }

  /** `KeptNames` of a non-empty list, by its head. */
  lemma KeptNamesCons(categories: seq<(string, Json)>)
    requires |categories| > 0
    ensures KeptNames(categories) ==
              (if IsObject(categories[0].1) && HasValidItem(categories[0].1) then {categories[0].0} else {})
              + KeptNames(categories[1..])
  {
    var tail := categories[1..];
    var kept := IsObject(categories[0].1) && HasValidItem(categories[0].1);
    forall n | n in KeptNames(categories) ensures n in (if kept then {categories[0].0} else {}) + KeptNames(tail) {
      var j :| 0 <= j < |categories| && IsObject(categories[j].1) && HasValidItem(categories[j].1) && categories[j].0 == n;
      if j > 0 {
        assert tail[j - 1] == categories[j];
      }
    }
    forall n | n in KeptNames(tail) ensures n in KeptNames(categories) {
      var j :| 0 <= j < |tail| && IsObject(tail[j].1) && HasValidItem(tail[j].1) && tail[j].0 == n;
      assert categories[j + 1] == tail[j];
    }
  }

  /** `Names` of a non-empty list, by its head. */
  lemma NamesCons(head: (string, seq<ShopItem>), rest: seq<(string, seq<ShopItem>)>)
    ensures Names([head] + rest) == {head.0} + Names(rest)
  {
    var g := [head] + rest;
    forall n | n in Names(g) ensures n in {head.0} + Names(rest) {
      var i :| 0 <= i < |g| && g[i].0 == n;
      if i > 0 {
        assert g[i] == rest[i - 1];
      }
    }
    forall n | n in Names(rest) ensures n in Names(g) {
      var i :| 0 <= i < |rest| && rest[i].0 == n;
      assert g[i + 1] == rest[i];
    }
    assert g[0].0 == head.0;
  }

  /** A category is in the result exactly when it is an object holding at
      least one valid item. */
  lemma {:induction false} GroupedNames(categories: seq<(string, Json)>)
    ensures Names(Grouped(categories)) == KeptNames(categories)
    decreases |categories|
  {
    if |categories| > 0 {
      GroupedNames(categories[1..]);
      KeptNamesCons(categories);
      var (name, v) := categories[0];
      assert IsObject(v) && HasValidItem(v) <==> IsObject(v) && |Items(Members(v))| > 0;
      if IsObject(v) && HasValidItem(v) {
        NamesCons((name, Items(Members(v))), Grouped(categories[1..]));
      }
    }
  }
}
