/**
 The sections of the homepage. The page keeps the active section as a
 string, and every place that sets it passes one of five literals: the
 main view '메인' and the four entries of `sections` (intro, notices,
 products, location). The model keeps the section as a closed enumeration
 and maps each value to the string the page uses.
 */
module Navigation {
  import opened Options

  datatype Section = Main | Intro | Notice | Products | Location

  /** The string the page stores for a section. */
  function Label(s: Section): string
  {
    match s
    case Main => "메인"
    case Intro => "소개"
    case Notice => "공지"
    case Products => "취급상품"
    case Location => "찾아오시는 길"
  }

  /** The sections listed in the header, in the drawer and, on the main view,
      as the four in-page headings; all three lists use this order. */
  const MenuSections: seq<Section> := [Intro, Notice, Products, Location]

  /** The section a stored string stands for, as the page's string
      comparisons identify it; None for a string no section uses. */
  function ParseLabel(stored: string): (r: Option<Section>)
    ensures r.Some? ==> Label(r.value) == stored
  {
    if stored == "메인" then Some(Main)
    else if stored == "소개" then Some(Intro)
    else if stored == "공지" then Some(Notice)
    else if stored == "취급상품" then Some(Products)
    else if stored == "찾아오시는 길" then Some(Location)
    else None
  }

  /** The one-line caption shown for a section other than the main view;
      any other string falls through to the default branch, which renders
      nothing. */
  function RenderContent(stored: string): (r: Option<string>)
    ensures r.Some? <==> exists s :: s in MenuSections && Label(s) == stored
  {
    if stored == "소개" then
      assert Label(Intro) == stored;
      Some("저희 CARD BASE에 오신 것을 환영합니다.")
    else if stored == "공지" then
      assert Label(Notice) == stored;
      Some("현재 공지사항이 없습니다.")
    else if stored == "취급상품" then
      assert Label(Products) == stored;
      Some("다양한 TCG 카드를 취급하고 있습니다.")
    else if stored == "찾아오시는 길" then
      assert Label(Location) == stored;
      Some("매장 위치 안내입니다.")
    else None
  }

  /** Every section is recovered from its stored string, so distinct
      sections are stored as distinct strings. */
  lemma LabelRoundTrip(s: Section)
    ensures ParseLabel(Label(s)) == Some(s)
  {
  }

  /** The menu lists exactly the sections other than the main view, each once. */
  lemma MenuSectionsAreTheOthers(s: Section)
    ensures s in MenuSections <==> s != Main
    ensures forall i, j :: 0 <= i < j < |MenuSections| ==> MenuSections[i] != MenuSections[j]
  {
  }

  /** Only the main view reaches the default branch of the caption switch,
      and the four other sections get four different captions. */
  lemma CaptionsDistinguishSections(s: Section, t: Section)
    ensures RenderContent(Label(s)).None? <==> s == Main
    ensures s != Main && t != Main && s != t ==> RenderContent(Label(s)) != RenderContent(Label(t))
  {
  }
}
