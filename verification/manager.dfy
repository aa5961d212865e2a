/**
 The two non-stream services of `NewsManager`: the read counter and the simulated
 detail fetch. The fetch's delay and dispatcher switch are not modelled; what remains
 is the text it returns.
 */
module Manager {
  import opened Wrappers

  /** The counter's value when the manager is created. */
  const InitialReadCount: nat := 0

  /** One "read" action: the counter moves up by exactly one. */
  function MarkAsRead(count: nat): (r: nat)
    ensures r > count && r - count == 1
  {
    count + 1
  }

  /** The counter after `k` read actions on a fresh manager. */
  function ReadCountAfter(k: nat): nat {
    if k == 0 then InitialReadCount else MarkAsRead(ReadCountAfter(k - 1))
  }

  /** After k read actions the counter reads k. */
  lemma {:induction false} ReadCountCountsReads(k: nat)
    ensures ReadCountAfter(k) == k
  {
    if k > 0 {
      ReadCountCountsReads(k - 1);
    }
  }

  /** The counter never goes down: more reads never show a smaller count. */
  lemma {:induction false} ReadCountMonotone(k: nat, l: nat)
    requires k <= l
    ensures ReadCountAfter(k) <= ReadCountAfter(l)
  {
    ReadCountCountsReads(k);
    ReadCountCountsReads(l);
  }

  /** Text that opens every detail report. */
  const DetailLead: string := "Laporan mendalam: "

  /** Text that closes every detail report, after the title. */
  const DetailTail: string :=
    ". " + "Konten ini berhasil dimuat secara asynchronous menggunakan Kotlin Coroutines. "
    + "Data diproses di Dispatchers.Default."

  /** The detail report the simulated fetch returns for a title; it cannot fail. */
  function FetchNewsDetail(title: string): (r: string)
    ensures |r| == |DetailLead| + |title| + |DetailTail|
    ensures r[..|DetailLead|] == DetailLead
    ensures r[|DetailLead|..|DetailLead| + |title|] == title
    ensures r[|DetailLead| + |title|..] == DetailTail
  {
    DetailLead + title + DetailTail
  }

  /** Reads the title back out of a detail report, if the text has the report's shape. */
  function DetailTitle(detail: string): (r: Option<string>)
    ensures r.Some? ==> FetchNewsDetail(r.value) == detail
  {
    var lead, tail := |DetailLead|, |DetailTail|;
    if lead + tail <= |detail| && detail[..lead] == DetailLead && detail[|detail| - tail..] == DetailTail then
      var title := detail[lead..|detail| - tail];
      assert detail == DetailLead + title + DetailTail;
      Some(title)
    else
      None
  }

  /** The title can always be recovered from its report, so distinct titles give distinct reports. */
  lemma DetailTitleRoundTrip(title: string)
    ensures DetailTitle(FetchNewsDetail(title)) == Some(title)
  {
    var d := FetchNewsDetail(title);
    assert d[|d| - |DetailTail|..] == DetailTail;
  }

  /** `part` appears in `text` starting at position `k`. */
  predicate OccursAt(text: string, part: string, k: nat) {
    k + |part| <= |text| && text[k..k + |part|] == part
  }

  /** `part` appears somewhere in `text`. */
  ghost predicate Contains(text: string, part: string) {
    exists k: nat :: OccursAt(text, part, k)
  }

  /** The report is never empty and contains the title it was asked about. */
  lemma DetailContainsTitle(title: string)
    ensures |FetchNewsDetail(title)| > 0
    ensures Contains(FetchNewsDetail(title), title)
  {
    assert OccursAt(FetchNewsDetail(title), title, |DetailLead|);
  }
}
