/**
  The decision of `whichFont`: split the element's `font-family` value on
  commas, and check the entries left to right, each after clean-up, returning
  the first one the presence check accepts. The loop runs while the raw entry
  is truthy, so an empty entry ends the search.

  The search is stated for any clean-up `strip` and any presence test
  `loaded`; `WhichFont` instantiates them with `Strip.StripEntry` and the
  presence check.
*/
module Resolve {
  import opened Wrappers
  import opened JsString
  import opened Strip

  /** The raw entries the loop reaches: those before the first empty one. */
  function Candidates(entries: seq<string>): (cs: seq<string>)
    ensures |cs| <= |entries| && cs == entries[..|cs|]
    ensures forall i :: 0 <= i < |cs| ==> cs[i] != ""
    ensures |cs| < |entries| ==> entries[|cs|] == ""
    decreases |entries|
  {
    if entries == [] || entries[0] == "" then []
    else [entries[0]] + Candidates(entries[1..])
  }

  /** The first reached entry that, cleaned up, counts as loaded. */
  function FirstLoaded(entries: seq<string>, strip: string -> string, loaded: string -> bool): Option<string>
    decreases |entries|
  {
    if entries == [] || entries[0] == "" then None
    else
      var font := strip(entries[0]);
      if loaded(font) then Some(font) else FirstLoaded(entries[1..], strip, loaded)
  }

  /** `whichFont` for an element whose computed `font-family` is `stack`. */
  function WhichFont(stack: string, loaded: string -> bool): Option<string>
  {
    FirstLoaded(Split(stack, ','), StripEntry, loaded)
  }

  /** Nothing is found exactly when no reached entry counts as loaded. */
  lemma {:induction false} NoneIffNoneLoaded(entries: seq<string>, strip: string -> string, loaded: string -> bool)
    ensures FirstLoaded(entries, strip, loaded) == None <==>
      forall i :: 0 <= i < |Candidates(entries)| ==> !loaded(strip(Candidates(entries)[i]))
    decreases |entries|
  {
    if entries != [] && entries[0] != "" {
      NoneIffNoneLoaded(entries[1..], strip, loaded);
      assert Candidates(entries) == [entries[0]] + Candidates(entries[1..]);
      if loaded(strip(entries[0])) {
        assert Candidates(entries)[0] == entries[0];
      } else {
        forall i | 1 <= i < |Candidates(entries)|
          ensures Candidates(entries)[i] == Candidates(entries[1..])[i - 1]
        {
        }
      }
    }
  }

  /** When entry `k` is the first reached entry that counts as loaded, the
      result is that entry, cleaned up. */
  lemma {:induction false} FoundAt(entries: seq<string>, strip: string -> string, loaded: string -> bool, k: nat)
    requires k < |entries|
    requires forall i :: 0 <= i <= k ==> entries[i] != ""
    requires forall i :: 0 <= i < k ==> !loaded(strip(entries[i]))
    requires loaded(strip(entries[k]))
    ensures FirstLoaded(entries, strip, loaded) == Some(strip(entries[k]))
    decreases k
  {
    if k > 0 {
      assert !loaded(strip(entries[0]));
      FoundAt(entries[1..], strip, loaded, k - 1);
    }
  }

  /** A result is always one of the reached entries, cleaned up, and counts as loaded. */
  lemma {:induction false} FoundIsLoadedCandidate(entries: seq<string>, strip: string -> string, loaded: string -> bool)
    requires FirstLoaded(entries, strip, loaded).Some?
    ensures loaded(FirstLoaded(entries, strip, loaded).value)
    ensures exists i :: 0 <= i < |Candidates(entries)| &&
                        FirstLoaded(entries, strip, loaded).value == strip(Candidates(entries)[i])
    decreases |entries|
  {
    var cs := Candidates(entries);
    if !loaded(strip(entries[0])) {
      FoundIsLoadedCandidate(entries[1..], strip, loaded);
      var i :| 0 <= i < |Candidates(entries[1..])| &&
               FirstLoaded(entries[1..], strip, loaded).value == strip(Candidates(entries[1..])[i]);
      assert cs[i + 1] == Candidates(entries[1..])[i];
    } else {
      assert cs[0] == entries[0];
    }
  }

  /** A family name written without quotes, commas or leading whitespace. */
  predicate PlainName(name: string)
  {
    |name| > 0 && !IsSpace(name[0]) && '\'' !in name && '"' !in name && ',' !in name
  }

  /** A plain name after `pad` spaces is cleaned up to the name itself. */
  lemma StripPadded(pad: string, name: string)
    requires AllSpace(pad) && PlainName(name)
    ensures StripEntry(pad + name) == name
  {
    assert forall i :: 0 <= i < |name| ==> !IsQuote(name[i]);
    StripQuoted(pad, "", "", name, "", "");
    assert pad + "" + "" + name + "" + "" == pad + name;
    assert name + "" == name;
  }

  /** A plain name is its own clean-up. */
  lemma StripPlain(name: string)
    requires PlainName(name)
    ensures StripEntry(name) == name
  {
    StripPadded("", name);
    assert "" + name == name;
  }

  /** A plain name between single quotes and spaces is cleaned up to the
      name itself. */
  lemma StripSingleQuoted(name: string)
    requires PlainName(name)
    ensures StripEntry(" '" + name + "' ") == name
  {
    var s := " '" + name + "' ";
    var p := 2 + |name|;
    assert s[0] == ' ' && s[1] == '\'' && s[p] == '\'' && s[p + 1] == ' ';
    assert forall x :: 2 <= x < p ==> s[x] == name[x - 2];
    CaptureOfLayout(s, 1, 2, 2, p, p + 1);
    assert s[2..p] == name;
  }

  /** In the stack `first, second, third` (the three entries joined with
      commas) where `first` is missing and `second` is loaded, the result is
      `second`; e.g. `UnknownFont, serif, sans-serif` gives `serif`. */
  lemma SkipsMissingFont(first: string, second: string, third: string, loaded: string -> bool)
    requires PlainName(first) && PlainName(second) && PlainName(third)
    requires !loaded(first) && loaded(second)
    ensures WhichFont(Join([first, " " + second, " " + third], ','), loaded) == Some(second)
  {
    var entries := [first, " " + second, " " + third];
    assert forall i :: 0 <= i < |entries| ==> ',' !in entries[i];
    SplitJoin(entries, ',');
    StripPlain(first);
    StripPadded(" ", second);
    FoundAt(entries, StripEntry, loaded, 1);
  }

  /** A quoted first choice is checked by its bare name: in
      ` 'name' , generic` (e.g. ` 'Custom Font' , sans-serif`) the result is
      `name` if loaded, else `generic` if loaded, else nothing. */
  lemma QuotedFirstChoice(name: string, generic: string, loaded: string -> bool)
    requires PlainName(name) && PlainName(generic)
    ensures WhichFont(Join([" '" + name + "' ", " " + generic], ','), loaded) ==
      if loaded(name) then Some(name)
      else if loaded(generic) then Some(generic)
      else None
  {
    var entries := [" '" + name + "' ", " " + generic];
    assert forall i :: 0 <= i < |entries| ==> ',' !in entries[i];
    SplitJoin(entries, ',');
    StripSingleQuoted(name);
    StripPadded(" ", generic);
    assert entries[1..][1..] == [];
    assert FirstLoaded(entries[1..], StripEntry, loaded) ==
      if loaded(generic) then Some(generic) else None;
  }
}
