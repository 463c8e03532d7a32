/**
 * The five daily prayers. The prayer store and the service worker each spell out
 * the same key list and display-name table (src/store/prayer-store.ts:25-32,
 * public/sw.js:155-162); the model defines them once.
 */
module PrayerNames {

  datatype Prayer = Fajr | Dhuhr | Asr | Maghrib | Isha

  /** The canonical (liturgical) order, which is also the order of the key list. */
  const Canonical: seq<Prayer> := [Fajr, Dhuhr, Asr, Maghrib, Isha]

  /** Position of a prayer in the canonical order. */
  function Rank(p: Prayer): (r: nat)
    ensures r < |Canonical| && Canonical[r] == p
  {
    match p
    case Fajr => 0
    case Dhuhr => 1
    case Asr => 2
    case Maghrib => 3
    case Isha => 4
  }

  /** The lower-case key under which a prayer's time is stored and sent. */
  function Key(p: Prayer): string {
    match p
    case Fajr => "fajr"
    case Dhuhr => "dhuhr"
    case Asr => "asr"
    case Maghrib => "maghrib"
    case Isha => "isha"
  }

  /** The capitalised name shown to the user. */
  function DisplayName(p: Prayer): string {
    match p
    case Fajr => "Fajr"
    case Dhuhr => "Dhuhr"
    case Asr => "Asr"
    case Maghrib => "Maghrib"
    case Isha => "Isha"
  }

  /** Different prayers have different keys and different display names. */
  lemma NamesDistinct(p: Prayer, q: Prayer)
    requires p != q
    ensures Key(p) != Key(q) && DisplayName(p) != DisplayName(q)
  {
  }
}
