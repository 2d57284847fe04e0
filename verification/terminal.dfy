/** The four terminal stops of the Phuket Smart Bus line and their spellings. */
module Terminals {
  import opened Wrappers

  datatype Terminal = Airport | Rawai | Kata | Patong

  /** The one spelling the parser accepts for each terminal. */
  function Keyword(t: Terminal): string {
    match t
    case Airport => "Airport"
    case Rawai => "Rawai"
    case Kata => "Kata"
    case Patong => "Patong"
  }

  /** `Terminal::from_str`: an exact, case-sensitive keyword match. */
  function Parse(s: string): (r: Result<Terminal>)
    ensures r.Ok? <==> s in {"Airport", "Rawai", "Kata", "Patong"}
    ensures r.Ok? ==> Keyword(r.value) == s
    ensures r.Err? ==> r.error == UnknownTerminal(s)
  {
    if s == "Airport" then Ok(Airport)
    else if s == "Rawai" then Ok(Rawai)
    else if s == "Kata" then Ok(Kata)
    else if s == "Patong" then Ok(Patong)
    else Err(UnknownTerminal(s))
  }

  /** Parsing a terminal's keyword gives that terminal back. */
  lemma ParseKeyword(t: Terminal)
    ensures Parse(Keyword(t)) == Ok(t)
  {
  }

  /** Two texts that parse to the same terminal are the same text. */
  lemma ParseInjective(s1: string, s2: string)
    requires Parse(s1).Ok? && Parse(s2).Ok?
    requires Parse(s1).value == Parse(s2).value
    ensures s1 == s2
  {
  }

  /** Every terminal is reached from exactly one spelling: its keyword. */
  lemma ParseExactlyKeyword(t: Terminal, s: string)
    ensures Parse(s) == Ok(t) <==> s == Keyword(t)
  {
  }

  /** Case variants and padded spellings are rejected. */
  lemma ParseRejectsVariants()
    ensures Parse("airport").Err? && Parse("RAWAI").Err?
    ensures Parse(" Kata").Err? && Parse("Patong ").Err?
    ensures Parse("").Err?
  {
  }

  /** The stop name of each terminal in the stop table (`Terminal::stop_name`). */
  function StopName(t: Terminal): (r: string)
    ensures |r| > 0
  {
    match t
    case Airport => "Phuket Airport"
    case Rawai => "Rawai Beach"
    case Kata => "Kata Palm"
    case Patong => "Bangla Patong"
  }

  /** Different terminals have different stop names. */
  lemma StopNameInjective(t1: Terminal, t2: Terminal)
    ensures StopName(t1) == StopName(t2) <==> t1 == t2
  {
  }
}
