/**
 * Keyword classification (core/datacard_search.py, get_all_products, lines 26-43):
 * the effective matching term and the page path chosen from a raw keyword.
 */
module Classifier {
  import opened Wrappers
  import opened Text

  /**
   * Province full and short names, including the special administrative regions, kept in
   * the nine rows in which the table is written; the rows only help the proofs walk the table.
   */
  const ProvinceRow1: seq<string> := ["北京市", "北京", "天津市", "天津", "河北省", "河北", "山西省", "山西"]
  const ProvinceRow2: seq<string> := ["内蒙古自治区", "内蒙古", "辽宁省", "辽宁", "吉林省", "吉林", "黑龙江省", "黑龙江"]
  const ProvinceRow3: seq<string> := ["上海市", "上海", "江苏省", "江苏", "浙江省", "浙江", "安徽省", "安徽"]
  const ProvinceRow4: seq<string> := ["福建省", "福建", "江西省", "江西", "山东省", "山东", "河南省", "河南"]
  const ProvinceRow5: seq<string> := ["湖北省", "湖北", "湖南省", "湖南", "广东省", "广东", "广西壮族自治区", "广西"]
  const ProvinceRow6: seq<string> := ["海南省", "海南", "重庆市", "重庆", "四川省", "四川", "贵州省", "贵州"]
  const ProvinceRow7: seq<string> := ["云南省", "云南", "西藏自治区", "西藏", "陕西省", "陕西", "甘肃省", "甘肃"]
  const ProvinceRow8: seq<string> := ["青海省", "青海", "宁夏回族自治区", "宁夏", "新疆维吾尔自治区", "新疆"]
  const ProvinceRow9: seq<string> := ["香港特别行政区", "香港", "澳门特别行政区", "澳门", "台湾省", "台湾"]

  const Provinces: seq<string> :=
    ProvinceRow1 + ProvinceRow2 + ProvinceRow3 + ProvinceRow4 + ProvinceRow5 +
    ProvinceRow6 + ProvinceRow7 + ProvinceRow8 + ProvinceRow9

  /** Carrier tokens, in the priority order in which they are looked for. */
  const Operators: seq<string> := ["移动", "联通", "广电"]

  const ProvincePathPrefix: string := "/producten/tyindex/"
  const ProductPathPrefix: string := "/ProductEn/Index/"

  /** The first of `ops` that occurs in `keyword`, if any. */
  function FirstContained(ops: seq<string>, keyword: string): (r: Option<string>)
  {
    if ops == [] then None
    else if Contains(keyword, ops[0]) then Some(ops[0])
    else FirstContained(ops[1..], keyword)
  }

  /** The term the listing is matched against: the first carrier token in the keyword, else the keyword. */
  function EffectiveTerm(keyword: string): (r: string) {
    match FirstContained(Operators, keyword)
    case Some(op) => op
    case None => keyword
  }

  lemma {:induction false} FirstContainedIsFirst(ops: seq<string>, keyword: string)
    ensures FirstContained(ops, keyword).None? ==> forall j :: 0 <= j < |ops| ==> !Contains(keyword, ops[j])
    ensures FirstContained(ops, keyword).Some? ==>
      exists i :: 0 <= i < |ops| && FirstContained(ops, keyword).value == ops[i] && Contains(keyword, ops[i]) &&
        forall j :: 0 <= j < i ==> !Contains(keyword, ops[j])
  {
    if ops != [] && !Contains(keyword, ops[0]) {
      FirstContainedIsFirst(ops[1..], keyword);
      if FirstContained(ops[1..], keyword).Some? {
        var i :| 0 <= i < |ops[1..]| && FirstContained(ops[1..], keyword).value == ops[1..][i] &&
          Contains(keyword, ops[1..][i]) && forall j :: 0 <= j < i ==> !Contains(keyword, ops[1..][j]);
        assert forall j :: 0 <= j < i + 1 ==> !Contains(keyword, ops[j]) by {
          forall j | 0 <= j < i + 1 ensures !Contains(keyword, ops[j]) {
            if j > 0 { assert ops[j] == ops[1..][j - 1]; }
          }
        }
        assert ops[i + 1] == ops[1..][i];
      } else {
        forall j | 0 <= j < |ops| ensures !Contains(keyword, ops[j]) {
          if j > 0 { assert ops[j] == ops[1..][j - 1]; }
        }
      }
    } else if ops != [] {
      assert FirstContained(ops, keyword).value == ops[0];
    }
  }

  /**
   * The effective term is the earliest carrier token, in priority order, that occurs in
   * the keyword; when none occurs it is the keyword unchanged.
   */
  lemma EffectiveTermIsFirstCarrier(keyword: string)
    ensures (forall j :: 0 <= j < |Operators| ==> !Contains(keyword, Operators[j])) ==> EffectiveTerm(keyword) == keyword
    ensures forall i ::
      (0 <= i < |Operators| && Contains(keyword, Operators[i]) && forall j :: 0 <= j < i ==> !Contains(keyword, Operators[j]))
      ==> EffectiveTerm(keyword) == Operators[i]
  {
    FirstContainedIsFirst(Operators, keyword);
    var r := FirstContained(Operators, keyword);
    if r.Some? {
      var i :| 0 <= i < |Operators| && r.value == Operators[i] && Contains(keyword, Operators[i]) &&
        forall j :: 0 <= j < i ==> !Contains(keyword, Operators[j]);
      forall i' | 0 <= i' < |Operators| && Contains(keyword, Operators[i']) &&
        (forall j :: 0 <= j < i' ==> !Contains(keyword, Operators[j]))
        ensures EffectiveTerm(keyword) == Operators[i']
      {
        assert i' == i;
      }
    }
  }

  /** The effective term always occurs in the keyword it was drawn from. */
  lemma EffectiveTermInKeyword(keyword: string)
    ensures Contains(keyword, EffectiveTerm(keyword))
  {
    FirstContainedIsFirst(Operators, keyword);
    if FirstContained(Operators, keyword).None? { ContainsItself(keyword); }
  }

  /**
   * Narrowing a keyword to its carrier token never loses a listing item: a name that contains
   * the raw keyword, ignoring case, also contains the effective term.
   */
  lemma EffectiveTermWidensMatch(name: string, keyword: string)
    requires ContainsIgnoreCase(name, keyword)
    ensures ContainsIgnoreCase(name, EffectiveTerm(keyword))
  {
    EffectiveTermInKeyword(keyword);
    ContainsLower(keyword, EffectiveTerm(keyword));
    ContainsTransitive(Lower(EffectiveTerm(keyword)), Lower(keyword), Lower(name));
  }

  /** The carrier scan of lines 28-32: a loop over the tokens that stops at the first one found. */
  method CoreKeyword(keyword: string) returns (core: string)
    ensures core == EffectiveTerm(keyword)
  {
    core := keyword;
    var i := 0;
    while i < |Operators|
      invariant 0 <= i <= |Operators|
      invariant core == keyword
      invariant FirstContained(Operators[i..], keyword) == FirstContained(Operators, keyword)
    {
      if Contains(keyword, Operators[i]) {
        core := Operators[i];
        break;
      }
      assert Operators[i..][1..] == Operators[i + 1..];
      i := i + 1;
    }
  }

  /** The raw keyword equals some province name, ignoring case. */
  predicate IsProvince(keyword: string) {
    exists i :: 0 <= i < |Provinces| && Lower(Provinces[i]) == Lower(keyword)
  }

  /** The listing path for a keyword and shop id: the province index or the generic product index. */
  function PagePath(keyword: string, shopId: string): (path: string)
    ensures IsProvince(keyword) <==> path == ProvincePathPrefix + shopId
    ensures !IsProvince(keyword) <==> path == ProductPathPrefix + shopId
  {
    assert (ProvincePathPrefix + shopId)[1] != (ProductPathPrefix + shopId)[1];
    if IsProvince(keyword) then ProvincePathPrefix + shopId else ProductPathPrefix + shopId
  }

  /** A CJK ideograph other than 移, 联 and 电. */
  predicate PlainChar(c: char) {
    '\U{4E00}' <= c <= '\U{9FFF}' && c != '移' && c != '联' && c != '电'
  }

  /** A province name is written in CJK ideographs only, none of them 移, 联 or 电. */
  predicate PlainName(p: string) {
    forall k :: 0 <= k < |p| ==> PlainChar(p[k])
  }

  predicate PlainRow(row: seq<string>) {
    forall i :: 0 <= i < |row| ==> PlainName(row[i])
  }

  lemma Row1IsPlain()
    ensures PlainRow(ProvinceRow1)
  {
  }

  lemma Row2IsPlain()
    ensures PlainRow(ProvinceRow2)
  {
  }

  lemma Row3IsPlain()
    ensures PlainRow(ProvinceRow3)
  {
  }

  lemma Row4IsPlain()
    ensures PlainRow(ProvinceRow4)
  {
  }

  lemma Row5IsPlain()
    ensures PlainRow(ProvinceRow5)
  {
  }

  lemma Row6IsPlain()
    ensures PlainRow(ProvinceRow6)
  {
  }

  lemma Row7IsPlain()
    ensures PlainRow(ProvinceRow7)
  {
  }

  lemma Row8IsPlain()
    ensures PlainRow(ProvinceRow8)
  {
  }

  lemma Row9IsPlain()
    ensures PlainRow(ProvinceRow9)
  {
  }

  lemma PlainRowsJoin(a: seq<string>, b: seq<string>)
    requires PlainRow(a) && PlainRow(b)
    ensures PlainRow(a + b)
  {
    forall i | 0 <= i < |a + b| ensures PlainName((a + b)[i]) {
      if i < |a| { assert (a + b)[i] == a[i]; } else { assert (a + b)[i] == b[i - |a|]; }
    }
  }

  lemma ProvincesArePlain()
    ensures forall i :: 0 <= i < |Provinces| ==> PlainName(Provinces[i])
  {
    Row1IsPlain(); Row2IsPlain(); Row3IsPlain(); Row4IsPlain(); Row5IsPlain();
    Row6IsPlain(); Row7IsPlain(); Row8IsPlain(); Row9IsPlain();
    var rows := ProvinceRow1;
    PlainRowsJoin(rows, ProvinceRow2); rows := rows + ProvinceRow2;
    PlainRowsJoin(rows, ProvinceRow3); rows := rows + ProvinceRow3;
    PlainRowsJoin(rows, ProvinceRow4); rows := rows + ProvinceRow4;
    PlainRowsJoin(rows, ProvinceRow5); rows := rows + ProvinceRow5;
    PlainRowsJoin(rows, ProvinceRow6); rows := rows + ProvinceRow6;
    PlainRowsJoin(rows, ProvinceRow7); rows := rows + ProvinceRow7;
    PlainRowsJoin(rows, ProvinceRow8); rows := rows + ProvinceRow8;
    PlainRowsJoin(rows, ProvinceRow9); rows := rows + ProvinceRow9;
    assert rows == Provinces;
    assert PlainRow(rows);
  }

  /**
   * Since no province name contains an ASCII letter, the case-insensitive comparison
   * accepts exactly the listed spellings.
   */
  lemma ProvinceIsExactName(keyword: string)
    ensures IsProvince(keyword) <==> keyword in Provinces
  {
    ProvincesArePlain();
    forall i | 0 <= i < |Provinces| ensures Lower(Provinces[i]) == Lower(keyword) <==> keyword == Provinces[i] {
      assert NoAsciiLetter(Provinces[i]) by {
        forall k | 0 <= k < |Provinces[i]| ensures PlainChar(Provinces[i][k]) { }
      }
      LowerMatchesOnlyItself(keyword, Provinces[i]);
    }
  }

  lemma PlainNameHasNoCarrier(p: string)
    requires PlainName(p)
    ensures forall j :: 0 <= j < |Operators| ==> !Contains(p, Operators[j])
  {
    forall j, i | 0 <= j < |Operators| && 0 <= i <= |p| ensures !OccursAt(p, Operators[j], i) {
      if i + 2 <= |p| {
        assert p[i..i + 2][0] == p[i] && p[i..i + 2][1] == p[i + 1];
        assert PlainChar(p[i]) && PlainChar(p[i + 1]);
      }
    }
  }

  /** No province name contains a carrier token, so a province keyword is matched as it is. */
  lemma ProvinceKeywordIsItsOwnTerm(keyword: string)
    requires IsProvince(keyword)
    ensures EffectiveTerm(keyword) == keyword
  {
    ProvinceIsExactName(keyword);
    ProvincesArePlain();
    PlainNameHasNoCarrier(keyword);
    EffectiveTermIsFirstCarrier(keyword);
  }

  /** Both the full and the short form of a province select the province index. */
  lemma BeijingIsProvince()
    ensures PagePath("北京", "3abcd2e80b9b4694") == ProvincePathPrefix + "3abcd2e80b9b4694"
    ensures PagePath("北京市", "3abcd2e80b9b4694") == ProvincePathPrefix + "3abcd2e80b9b4694"
  {
    assert Provinces[0] == "北京市" && Provinces[1] == "北京";
  }

  /**
   * The path depends on the raw keyword, not on the effective term: "广东移动" is matched
   * against "移动" but, not being a province name, selects the generic product index.
   */
  lemma CarrierKeywordUsesProductIndex()
    ensures EffectiveTerm("广东移动") == "移动"
    ensures PagePath("广东移动", "3abcd2e80b9b4694") == ProductPathPrefix + "3abcd2e80b9b4694"
  {
    assert OccursAt("广东移动", "移动", 2);
    EffectiveTermIsFirstCarrier("广东移动");
    assert !IsProvince("广东移动") by {
      ProvincesArePlain();
      forall i | 0 <= i < |Provinces| ensures Lower(Provinces[i]) != Lower("广东移动") {
        if |Provinces[i]| == 4 {
          assert PlainChar(Provinces[i][2]);
          assert Lower(Provinces[i])[2] != Lower("广东移动")[2];
        }
      }
    }
  }
}
