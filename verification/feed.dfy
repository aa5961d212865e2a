/**
 The static news data of `NewsManager`: the `News` record, the six sample items,
 the seven category chips, and the title decoration applied to every delivered item.
 */
module Feed {
  import opened Wrappers

  /** One news item; `tag` is the decorative emoji shown before the title. */
  datatype News = News(id: int, title: string, category: string, tag: string)

  /** The "All" sentinel: the filter that lets every item through. */
  const All: string := "Semua"

  /** The fixed sample list the ticker cycles through, in order. */
  const RawNews: seq<News> := [
    News(1, "Ramadhan Tiba, Jutaan Warga Sambut Bulan Suci", "Religi", "🕌"),
    News(2, "Polri Resmikan 1176 Dapur MBG di Seluruh Nusantara", "Nasional", "🏛️"),
    News(3, "BTR Raih Juara Dunia di Grand Finals MLBB", "Game", "🎮"),
    News(4, "Pria Sawit Join BoP: Fenomena Baru di Dunia Maya", "Trending", "🔥"),
    News(5, "Teknologi AI Terus Berkembang Pesat di Indonesia", "Tech", "🤖"),
    News(6, "IHSG Melesat 2.3% di Tengah Sentimen Positif", "Ekonomi", "📈")
  ]

  /** The category chips offered on screen, "Semua" first. */
  const Categories: seq<string> := [All, "Religi", "Nasional", "Game", "Trending", "Tech", "Ekonomi"]

  /** Whether the ticker's filter lets the (undecorated) item through; "Semua" admits everything. */
  predicate Matches(filter: string, n: News) {
    filter == All || n.category == filter
  }

  /** The bracketed category prefix put in front of a delivered title. */
  function Prefix(category: string): (p: string)
    ensures |p| == |category| + 3
    ensures p[0] == '[' && p[|p| - 2] == ']' && p[|p| - 1] == ' '
    ensures p[1..|p| - 2] == category
  {
    var p := "[" + category + "] ";
    assert p[1..|p| - 2] == category;
    p
  }

  /** The copy of an item that the ticker delivers: only the title changes. */
  function Decorate(n: News): (d: News)
    ensures d.id == n.id && d.category == n.category && d.tag == n.tag
    ensures d.title == Prefix(n.category) + n.title
  {
    n.(title := Prefix(n.category) + n.title)
  }

  /** The delivered title reads "[", the category, "] ", then the original title, and nothing else. */
  lemma DecoratedTitleShape(n: News)
    ensures var t := Decorate(n).title;
      && |t| == |n.category| + 3 + |n.title|
      && t[0] == '[' && t[1..|n.category| + 1] == n.category
      && t[|n.category| + 1] == ']' && t[|n.category| + 2] == ' '
      && t[|n.category| + 3..] == n.title
  {
    var p, t := Prefix(n.category), Decorate(n).title;
    assert t[..|p|] == p;
    assert t[1..|n.category| + 1] == p[1..|p| - 2];
  }

  /** Recovers the original item from a delivered one, if its title carries the expected prefix. */
  function Undecorate(d: News): (r: Option<News>)
    ensures r.Some? ==> Decorate(r.value) == d
  {
    var p := Prefix(d.category);
    if |p| <= |d.title| && d.title[..|p|] == p then
      assert d.title == p + d.title[|p|..];
      Some(d.(title := d.title[|p|..]))
    else
      None
  }

  /** Decoration keeps the category, so filtering before or after decorating gives the same verdict. */
  lemma MatchesIgnoresDecoration(filter: string, n: News)
    ensures Matches(filter, Decorate(n)) <==> Matches(filter, n)
  {
  }

  /** Undecorate inverts Decorate on every item. */
  lemma UndecorateDecorate(n: News)
    ensures Undecorate(Decorate(n)) == Some(n)
  {
    var d := Decorate(n);
    var p := Prefix(n.category);
    assert d.title[..|p|] == p;
    assert d.title[|p|..] == n.title;
  }

  /** Decoration loses nothing: distinct items stay distinct once delivered. */
  lemma DecorateInjective(a: News, b: News)
    requires Decorate(a) == Decorate(b)
    ensures a == b
  {
    UndecorateDecorate(a);
    UndecorateDecorate(b);
  }

  /** Position of the first sample item of the given category, scanning from index `from`. */
  function IndexFrom(c: string, from: nat): (r: Option<nat>)
    requires from <= |RawNews|
    ensures r.Some? ==> from <= r.value < |RawNews| && RawNews[r.value].category == c
    ensures r.Some? ==> forall j :: from <= j < r.value ==> RawNews[j].category != c
    ensures r.None? ==> forall j :: from <= j < |RawNews| ==> RawNews[j].category != c
    decreases |RawNews| - from
  {
    if from == |RawNews| then None
    else if RawNews[from].category == c then Some(from)
    else IndexFrom(c, from + 1)
  }

  /** The index of the sample item of category `c`, if any. */
  function CategoryIndex(c: string): (r: Option<nat>)
    ensures r.Some? ==> r.value < |RawNews| && RawNews[r.value].category == c
    ensures r.None? <==> forall j :: 0 <= j < |RawNews| ==> RawNews[j].category != c
  {
    IndexFrom(c, 0)
  }

  /** The chips after "Semua" are exactly the sample categories, in the sample order. */
  lemma CategoriesListRawCategories()
    ensures |Categories| == |RawNews| + 1 && Categories[0] == All
    ensures forall j :: 0 <= j < |RawNews| ==> Categories[j + 1] == RawNews[j].category
  {
  }

  /** No two sample items share a category, and none is filed under "Semua". */
  lemma RawCategoriesDistinct()
    ensures forall i, j :: 0 <= i < j < |RawNews| ==> RawNews[i].category != RawNews[j].category
    ensures forall j :: 0 <= j < |RawNews| ==> RawNews[j].category != All
  {
  }

  /** Every chip other than "Semua" selects exactly one sample item. */
  lemma ChipSelectsExactlyOne(c: string)
    requires c in Categories && c != All
    ensures CategoryIndex(c).Some?
    ensures forall j :: 0 <= j < |RawNews| && RawNews[j].category == c ==> j == CategoryIndex(c).value
  {
    CategoriesListRawCategories();
    RawCategoriesDistinct();
    var k :| 0 <= k < |Categories| && Categories[k] == c;
    assert RawNews[k - 1].category == c;
  }
}
