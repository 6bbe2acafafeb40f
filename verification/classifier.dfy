/**
 The two sample classifiers `convert` builds from the configuration: the
 `isControl` and `baitName` lambdas of `MaxquantToSaintConverter`.

 The regular expressions are abstracted: `Rules.control(name)` is whether
 the control pattern matches the WHOLE name (`Matcher.matches`), and
 `Rules.bait(name)` is the outcome of a whole-name match of the bait
 pattern together with its first capture group, which Java reports as
 `null` when the group took no part in the match.
 */
module Classifier {
  import opened Wrappers
  import opened Saint

  /** Outcome of `baitPattern.matcher(name).matches()` and, on success, `group(1)`. */
  datatype BaitMatch = NoMatch | FullMatch(group1: Option<string>)

  /**
   The compiled control and bait patterns; `control` is the `isControl`
   lambda itself: the control pattern matches the whole sample name.
   */
  datatype Rules = Rules(control: string -> bool, bait: string -> BaitMatch)

  /**
   `baitName`: the bait pattern's first group for a test sample the bait
   pattern fully matches; the sample's own name in every other case.
   */
  function BaitName(rules: Rules, name: string): (r: Option<string>)
    ensures rules.control(name) ==> r == Some(name)
    ensures rules.bait(name) == NoMatch ==> r == Some(name)
    ensures !rules.control(name) && rules.bait(name).FullMatch? ==> r == rules.bait(name).group1
  {
    var m := rules.bait(name);
    if !rules.control(name) && m.FullMatch? then m.group1 else Some(name)
  }

  /** The sample record `convert` builds for a column name, for the bait and interaction files alike. */
  function Classify(rules: Rules, name: string): (s: Sample)
    ensures s.name == name
    ensures s.control <==> rules.control(name)
    ensures s.bait == BaitName(rules, name)
    ensures s.control ==> s.bait == Some(name)
    ensures s.bait != Some(name) ==>
              !s.control && rules.bait(name).FullMatch? && s.bait == rules.bait(name).group1
  {
    Sample(name, BaitName(rules, name), rules.control(name))
  }
}
