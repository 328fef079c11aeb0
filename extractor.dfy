/**
 * Field extraction (core/datacard_search.py, extract_product_data, lines 93-126): the record
 * read out of one accepted list item, with a default for every field whose markup is missing.
 */
module Extractor {
  import opened Wrappers
  import opened Text
  import opened Listing

  /** The three quota fields that the `div.b2` spans may overwrite. */
  datatype Flow = Flow(general: string, targeted: string, minutes: string)

  /** The fields of one product, in the order of the returned dictionary. */
  datatype Fields = Fields(
    image: string,      // md图片
    name: string,       // 产品名称
    general: string,    // 通用流量
    targeted: string,   // 定向流量
    minutes: string,    // 通话时长
    age: string)        // 适用年龄

  /** The lookups that raise when their element is missing, in the order they are made. */
  datatype Fault =
    | NoDt        // find('dt') is None, so .find('img') raises
    | NoHeading   // find('h1') is None, so .get_text raises
    | NoB1        // find('div', class_='b1') is None, so .find raises
    | NoImgSrc    // the img has no src, so img_tag['src'] raises

  const GeneralLabel: string := "通用流量"
  const TargetedLabel: string := "定向流量"
  const MinutesLabel: string := "通话时长"

  const DefaultFlow: Flow := Flow("0G", "0G", "0分钟")
  const DefaultAge: string := "年龄不限"
  const ImagePrefix: string := "![图片]("

  /** Which quota field a `span` text sets: the first label it contains, in this order. */
  datatype Label = General | Targeted | Minutes

  function LabelOf(text: string): (r: Option<Label>) {
    if Contains(text, GeneralLabel) then Some(General)
    else if Contains(text, TargetedLabel) then Some(Targeted)
    else if Contains(text, MinutesLabel) then Some(Minutes)
    else None
  }

  function FieldOf(f: Flow, l: Label): (r: string) {
    match l
    case General => f.general
    case Targeted => f.targeted
    case Minutes => f.minutes
  }

  /** A labelled text holds at least one token, so text.split()[-1] is defined. */
  lemma LabelledTextHasToken(text: string)
    requires LabelOf(text).Some?
    ensures Split(text) != []
  {
    if Contains(text, GeneralLabel) {
      ContainsWordHasToken(text, GeneralLabel);
    } else if Contains(text, TargetedLabel) {
      ContainsWordHasToken(text, TargetedLabel);
    } else {
      ContainsWordHasToken(text, MinutesLabel);
    }
  }

  /** The last whitespace-delimited token of a labelled text. */
  function LastToken(text: string): (t: string)
    requires LabelOf(text).Some?
    ensures t != [] && NoSpace(t)
  {
    LabelledTextHasToken(text);
    var ts := Split(text);
    ts[|ts| - 1]
  }

  /** One span of `div.b2`: the field its label names takes the text's last token. */
  function ApplySpan(f: Flow, text: string): (r: Flow) {
    match LabelOf(text)
    case None => f
    case Some(General) => f.(general := LastToken(text))
    case Some(Targeted) => f.(targeted := LastToken(text))
    case Some(Minutes) => f.(minutes := LastToken(text))
  }

  /** The spans applied in document order. */
  function ApplySpans(f: Flow, spans: seq<string>): (r: Flow)
    decreases |spans|
  {
    if spans == [] then f
    else ApplySpan(ApplySpans(f, spans[..|spans| - 1]), spans[|spans| - 1])
  }

  /** The image cell: the resolved source in markdown, or the text None when there is no image. */
  function ImageMarkdown(img: Option<Img>, resolve: string -> string): (r: string)
    requires img.Some? ==> img.value.src.Some?
  {
    ImagePrefix + (if img.Some? then resolve(img.value.src.value) else "None") + ")"
  }

  /** An item the extractor can read without raising. */
  predicate Extractable(x: Item) {
    && x.dt.Some?
    && x.heading.Some?
    && x.b1.Some?
    && (x.dt.value.img.Some? ==> x.dt.value.img.value.src.Some?)
  }

  /** What extract_product_data returns for an item, or the first lookup that raises. */
  function ExtractSpec(x: Item, resolve: string -> string): (r: Result<Fields, Fault>) {
    if x.dt.None? then Failure(NoDt)
    else if x.heading.None? then Failure(NoHeading)
    else if x.b1.None? then Failure(NoB1)
    else
      var flow := if x.b2.Some? then ApplySpans(DefaultFlow, x.b2.value) else DefaultFlow;
      var age := if x.b1.value.xl.Some? then x.b1.value.xl.value else DefaultAge;
      var img := x.dt.value.img;
      if img.Some? && img.value.src.None? then Failure(NoImgSrc)
      else Success(Fields(ImageMarkdown(img, resolve), x.heading.value, flow.general, flow.targeted, flow.minutes, age))
  }

  /** The extractor: defaults first, then the `div.b2` spans overwrite them one after another. */
  method ExtractProductData(x: Item, resolve: string -> string) returns (r: Result<Fields, Fault>)
    ensures r == ExtractSpec(x, resolve)
  {
    if x.dt.None? {
      return Failure(NoDt);
    }
    var imgTag := x.dt.value.img;
    if x.heading.None? {
      return Failure(NoHeading);
    }
    var productName := x.heading.value;
    if x.b1.None? {
      return Failure(NoB1);
    }
    var flowData := DefaultFlow;
    var age := DefaultAge;
    if x.b2.Some? {
      var spans := x.b2.value;
      var i := 0;
      while i < |spans|
        invariant 0 <= i <= |spans|
        invariant flowData == ApplySpans(DefaultFlow, spans[..i])
      {
        var text := spans[i];
        assert spans[..i + 1][..i] == spans[..i];
        if Contains(text, GeneralLabel) {
          flowData := flowData.(general := LastToken(text));
        } else if Contains(text, TargetedLabel) {
          flowData := flowData.(targeted := LastToken(text));
        } else if Contains(text, MinutesLabel) {
          flowData := flowData.(minutes := LastToken(text));
        }
        i := i + 1;
      }
      assert spans[..i] == spans;
    }
    if x.b1.value.xl.Some? {
      age := x.b1.value.xl.value;
    }
    if imgTag.Some? && imgTag.value.src.None? {
      return Failure(NoImgSrc);
    }
    r := Success(Fields(ImageMarkdown(imgTag, resolve), productName,
                        flowData.general, flowData.targeted, flowData.minutes, age));
  }

  /** Extraction raises exactly when the item lacks its dt, its heading, its b1 block, or its image's src. */
  lemma ExtractSucceedsIff(x: Item, resolve: string -> string)
    ensures ExtractSpec(x, resolve).Success? <==> Extractable(x)
  {
  }

  /** A span only ever changes the field its label names. */
  lemma {:induction false} ApplySpanOtherFields(f: Flow, text: string, l: Label)
    requires LabelOf(text) != Some(l)
    ensures FieldOf(ApplySpan(f, text), l) == FieldOf(f, l)
  {
  }

  /** A field that no span is labelled with keeps its starting value. */
  lemma {:induction false} UnlabelledFieldKeepsDefault(f: Flow, spans: seq<string>, l: Label)
    requires forall k :: 0 <= k < |spans| ==> LabelOf(spans[k]) != Some(l)
    ensures FieldOf(ApplySpans(f, spans), l) == FieldOf(f, l)
    decreases |spans|
  {
    if spans != [] {
      var init := spans[..|spans| - 1];
      assert forall k :: 0 <= k < |init| ==> init[k] == spans[k];
      UnlabelledFieldKeepsDefault(f, init, l);
      ApplySpanOtherFields(ApplySpans(f, init), spans[|spans| - 1], l);
    }
  }

  /** The last span labelled for a field decides it: later spans with other labels leave it alone. */
  lemma {:induction false} LastLabelledSpanWins(f: Flow, spans: seq<string>, l: Label, k: nat)
    requires k < |spans| && LabelOf(spans[k]) == Some(l)
    requires forall j :: k < j < |spans| ==> LabelOf(spans[j]) != Some(l)
    ensures FieldOf(ApplySpans(f, spans), l) == LastToken(spans[k])
    decreases |spans|
  {
    var init := spans[..|spans| - 1];
    var last := spans[|spans| - 1];
    if k == |spans| - 1 {
    } else {
      assert forall j :: k < j < |init| ==> init[j] == spans[j];
      assert init[k] == spans[k];
      LastLabelledSpanWins(f, init, l, k);
      ApplySpanOtherFields(ApplySpans(f, init), last, l);
    }
  }

  /** Without a `div.b2` block the quota fields keep "0G", "0G" and "0分钟"; without `span.xl` the age is "年龄不限". */
  lemma DefaultsWhenMarkupMissing(x: Item, resolve: string -> string)
    requires Extractable(x)
    ensures x.b2.None? ==>
      var r := ExtractSpec(x, resolve).value;
      r.general == "0G" && r.targeted == "0G" && r.minutes == "0分钟"
    ensures x.b1.value.xl.None? ==> ExtractSpec(x, resolve).value.age == "年龄不限"
    ensures x.b1.value.xl.Some? ==> ExtractSpec(x, resolve).value.age == x.b1.value.xl.value
  {
  }

  /** The image cell of an item without an image is the text ![图片](None). */
  lemma MissingImageRendersNone(x: Item, resolve: string -> string)
    requires Extractable(x) && x.dt.value.img.None?
    ensures ExtractSpec(x, resolve).value.image == "![图片](None)"
  {
  }

  /** The image cell of an item with an image wraps its resolved source. */
  lemma PresentImageRendersLink(x: Item, resolve: string -> string)
    requires Extractable(x) && x.dt.value.img.Some?
    ensures ExtractSpec(x, resolve).value.image == "![图片](" + resolve(x.dt.value.img.value.src.value) + ")"
  {
  }

  /** The promoted flag is read but never returned: toggling it does not change the record. */
  lemma PromotedFlagIgnored(x: Item, resolve: string -> string)
    requires x.b1.Some?
    ensures ExtractSpec(x.(b1 := Some(x.b1.value.(hasZhutui := !x.b1.value.hasZhutui))), resolve) == ExtractSpec(x, resolve)
  {
  }

  lemma SplitGeneralExample()
    ensures Split("通用流量 10G") == ["通用流量", "10G"]
  {
    SplitJoinSpaced(["通用流量", "10G"]);
    assert JoinSpaced(["通用流量", "10G"]) == "通用流量 10G";
  }

  /** A span "通用流量 10G" sets the general-data field to "10G" and leaves the others at their defaults. */
  lemma GeneralSpanExample()
    ensures ApplySpans(DefaultFlow, ["通用流量 10G"]) == Flow("10G", "0G", "0分钟")
  {
    var s := "通用流量 10G";
    assert OccursAt(s, GeneralLabel, 0);
    SplitGeneralExample();
    assert [s][..0] == [];
  }
}
