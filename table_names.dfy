/**
 * Resolution of the physical snapshot table for an aggregate type
 * (`DoctrineSnapshotAdapter::getTable` and `getShortAggregateTypeName`).
 *
 * An aggregate type is named by its string form (`AggregateType::toString()`),
 * for example `App\Domain\User`. A name found in the table map is used as is;
 * any other name is derived: `-` becomes `_`, the text after the last `\` is
 * kept, it is lower-cased, and `_snapshot` is appended unless the result
 * already contains `_snapshot`.
 */
module TableNames {
  import opened Wrappers

  /** The namespace separator of PHP class names. */
  const Separator: char := '\\'

  /** The marker every derived table name contains. */
  const SnapshotSuffix: string := "_snapshot"

  // ---------------------------------------------------------------------
  // str_replace('-', '_', s)
  // ---------------------------------------------------------------------

  /** Every hyphen of `s` replaced by an underscore; all other characters kept in place. */
  function ReplaceDashes(s: string): (r: string)
    ensures |r| == |s|
    ensures '-' !in r
    ensures forall i :: 0 <= i < |s| && s[i] == '-' ==> r[i] == '_'
    ensures forall i :: 0 <= i < |s| && s[i] != '-' ==> r[i] == s[i]
  {
    seq(|s|, i requires 0 <= i < |s| => if s[i] == '-' then '_' else s[i])
  }

  // ---------------------------------------------------------------------
  // explode / implode
  // ---------------------------------------------------------------------

  /**
   * PHP's `explode(sep, s)`: the pieces of `s` between occurrences of `sep`.
   * There is always at least one piece, and no piece contains `sep`.
   */
  function Explode(s: string, sep: char): (parts: seq<string>)
    ensures |parts| >= 1
    ensures forall i :: 0 <= i < |parts| ==> sep !in parts[i]
    ensures sep !in s ==> parts == [s]
    ensures sep in s ==> |parts| >= 2
    decreases |s|
  {
    if s == [] then [""]
    else
      var rest := Explode(s[1..], sep);
      if s[0] == sep then [""] + rest
      else
        assert sep !in s ==> rest == [s[1..]] && s == [s[0]] + s[1..];
        [[s[0]] + rest[0]] + rest[1..]
  }

  /** PHP's `implode(sep, parts)`: the pieces joined with `sep` between neighbours. */
  function Implode(parts: seq<string>, sep: char): string
    requires |parts| >= 1
    decreases |parts|
  {
    if |parts| == 1 then parts[0] else parts[0] + [sep] + Implode(parts[1..], sep)
  }

  /** Joining the pieces of `s` gives back `s`: `explode` loses nothing. */
  lemma {:induction false} ImplodeExplode(s: string, sep: char)
    ensures Implode(Explode(s, sep), sep) == s
    decreases |s|
  {
    if s != [] {
      ImplodeExplode(s[1..], sep);
      var rest := Explode(s[1..], sep);
      assert s == [s[0]] + s[1..];
      if s[0] == sep {
        ImplodeEmptyFirst(rest, sep);
      } else {
        ImplodeExtendFirst(s[0], rest, sep);
      }
    }
  }

  /** An empty first piece contributes only its separator. */
  lemma ImplodeEmptyFirst(rest: seq<string>, sep: char)
    requires |rest| >= 1
    ensures Implode([""] + rest, sep) == [sep] + Implode(rest, sep)
  {
    assert ([""] + rest)[1..] == rest;
  }

  /** A character put in front of the first piece is put in front of the joined string. */
  lemma ImplodeExtendFirst(c: char, rest: seq<string>, sep: char)
    requires |rest| >= 1
    ensures Implode([[c] + rest[0]] + rest[1..], sep) == [c] + Implode(rest, sep)
  {
    var parts := [[c] + rest[0]] + rest[1..];
    assert parts[1..] == rest[1..];
  }

  /**
   * The last piece that `Implode` joins ends the joined string, and unless it is
   * the only piece, a separator stands right before it.
   */
  lemma {:induction false} ImplodeEndsWithLast(parts: seq<string>, sep: char)
    requires |parts| >= 1
    ensures var s, last := Implode(parts, sep), parts[|parts| - 1];
      |last| <= |s| && s[|s| - |last|..] == last &&
      (|parts| > 1 ==> |last| < |s| && s[|s| - |last| - 1] == sep)
    decreases |parts|
  {
    if |parts| > 1 {
      ImplodeEndsWithLast(parts[1..], sep);
      var tail := Implode(parts[1..], sep);
      var last := parts[|parts| - 1];
      assert parts[1..][|parts[1..]| - 1] == last;
      var s := parts[0] + [sep] + tail;
      assert s[|s| - |last|..] == tail[|tail| - |last|..];
      if |parts[1..]| == 1 {
        assert s[|s| - |last| - 1] == sep;
      } else {
        assert s[|s| - |last| - 1] == tail[|tail| - |last| - 1];
      }
    }
  }

  /** Replacing hyphens neither adds nor removes a namespace separator. */
  lemma SeparatorSurvivesDashes(t: string)
    ensures Separator in ReplaceDashes(t) <==> Separator in t
  {
    var d := ReplaceDashes(t);
    assert forall i :: 0 <= i < |t| ==> (d[i] == Separator <==> t[i] == Separator);
  }

  // ---------------------------------------------------------------------
  // getShortAggregateTypeName
  // ---------------------------------------------------------------------

  /**
   * The short name of an aggregate type: `implode('', array_slice(explode('\\',
   * str_replace('-', '_', t)), -1))`, i.e. the last `\`-separated segment of the
   * hyphen-free type string. It is a suffix of that string, not preceded by
   * anything but a `\`, and it is the whole string when there is no `\`.
   */
  function ShortName(t: string): (r: string)
    ensures Separator !in r && '-' !in r
    ensures Separator !in t ==> r == ReplaceDashes(t)
    ensures var d := ReplaceDashes(t);
      |r| <= |d| && d[|d| - |r|..] == r && (|r| == |d| || d[|d| - |r| - 1] == Separator)
  {
    var parts := Explode(ReplaceDashes(t), Separator);
    LastPieceFacts(t);
    parts[|parts| - 1]
  }

  /** What `ShortName` promises, about the last piece of the hyphen-replaced type string. */
  lemma LastPieceFacts(t: string)
    ensures var d := ReplaceDashes(t);
      var parts := Explode(d, Separator);
      var r := parts[|parts| - 1];
      Separator !in r && '-' !in r &&
      (Separator !in t ==> r == d) &&
      |r| <= |d| && d[|d| - |r|..] == r && (|r| == |d| || d[|d| - |r| - 1] == Separator)
  {
    var d := ReplaceDashes(t);
    var parts := Explode(d, Separator);
    ImplodeExplode(d, Separator);
    ImplodeEndsWithLast(parts, Separator);
    SeparatorSurvivesDashes(t);
    var r := parts[|parts| - 1];
    assert Separator !in r;
    SliceKeepsAbsence(d, |d| - |r|, '-');
  }

  /** A character missing from a string is missing from each of its suffixes. */
  lemma SliceKeepsAbsence(d: string, k: nat, c: char)
    requires k <= |d| && c !in d
    ensures c !in d[k..]
  {
  }

  // ---------------------------------------------------------------------
  // strtolower
  // ---------------------------------------------------------------------

  predicate IsUpper(c: char) {
    'A' <= c <= 'Z'
  }

  /** No character of `s` is an ASCII capital letter. */
  predicate NoUpper(s: string) {
    forall i :: 0 <= i < |s| ==> !IsUpper(s[i])
  }

  /** ASCII lower-casing of one character (the locale-independent `strtolower` of PHP 8.2 and later). */
  function LowerChar(c: char): (r: char)
    ensures !IsUpper(r)
    ensures !IsUpper(c) ==> r == c
    ensures IsUpper(c) ==> r as int == c as int + 32
  {
    if IsUpper(c) then (c as int - 'A' as int + 'a' as int) as char else c
  }

  /** PHP's `strtolower`: capitals replaced by their small letters, nothing else touched. */
  function Lower(s: string): (r: string)
    ensures |r| == |s| && NoUpper(r)
    ensures forall i :: 0 <= i < |s| ==> r[i] == LowerChar(s[i])
    ensures NoUpper(s) ==> r == s
  {
    seq(|s|, i requires 0 <= i < |s| => LowerChar(s[i]))
  }

  // ---------------------------------------------------------------------
  // strpos
  // ---------------------------------------------------------------------

  /** `needle` occurs in `hay` starting at position `i`. */
  predicate OccursAt(hay: string, needle: string, i: nat) {
    i + |needle| <= |hay| && hay[i..i + |needle|] == needle
  }

  /** `needle` occurs somewhere in `hay`. */
  predicate Contains(hay: string, needle: string) {
    exists i: nat :: i <= |hay| && OccursAt(hay, needle, i)
  }

  lemma OccursAtShift(hay: string, needle: string)
    requires |hay| >= 1
    ensures forall i: nat :: OccursAt(hay[1..], needle, i) <==> OccursAt(hay, needle, i + 1)
  {
    forall i: nat ensures OccursAt(hay[1..], needle, i) <==> OccursAt(hay, needle, i + 1) {
      if i + 1 + |needle| <= |hay| {
        assert hay[1..][i..i + |needle|] == hay[i + 1..i + 1 + |needle|];
      }
    }
  }

  /**
   * PHP's `strpos(hay, needle)`: the first position where `needle` occurs,
   * or `None` (PHP's `false`) when it occurs nowhere.
   */
  function StrPos(hay: string, needle: string): (r: Option<nat>)
    ensures r.Some? ==> OccursAt(hay, needle, r.value)
    ensures r.Some? ==> forall j: nat :: j < r.value ==> !OccursAt(hay, needle, j)
    ensures r.None? <==> !Contains(hay, needle)
    decreases |hay|
  {
    if OccursAt(hay, needle, 0) then Some(0)
    else if |hay| == 0 then None
    else
      OccursAtShift(hay, needle);
      match StrPos(hay[1..], needle)
      case Some(i) =>
        assert forall j: nat :: j < i + 1 ==> !OccursAt(hay, needle, j) by {
          forall j: nat | j < i + 1 ensures !OccursAt(hay, needle, j) {
            if j > 0 { assert !OccursAt(hay[1..], needle, j - 1); }
          }
        }
        Some(i + 1)
      case None =>
        assert forall j: nat :: !OccursAt(hay, needle, j) by {
          forall j: nat ensures !OccursAt(hay, needle, j) {
            if j > 0 { assert !OccursAt(hay[1..], needle, j - 1); }
          }
        }
        None
  }

  // ---------------------------------------------------------------------
  // getTable
  // ---------------------------------------------------------------------

  /** A name of the shape every derived table name has. */
  predicate IsDerivedShape(name: string) {
    Contains(name, SnapshotSuffix) && Separator !in name && '-' !in name && NoUpper(name)
  }

  /** Lower-casing a short name keeps it free of separators and hyphens. */
  lemma LowerShape(short: string)
    requires Separator !in short && '-' !in short
    ensures var l := Lower(short); Separator !in l && '-' !in l
  {
    var l := Lower(short);
    forall i | 0 <= i < |l| ensures l[i] != Separator && l[i] != '-' {
      assert l[i] == LowerChar(short[i]);
    }
  }

  /** Appending the suffix to a lower-case, separator-free name gives a derived-shape name. */
  lemma SuffixAppended(l: string)
    requires Separator !in l && '-' !in l && NoUpper(l)
    ensures IsDerivedShape(l + SnapshotSuffix)
  {
    var s := l + SnapshotSuffix;
    assert s[|l|..|l| + |SnapshotSuffix|] == SnapshotSuffix;
    assert OccursAt(s, SnapshotSuffix, |l|);
    assert NoUpper(SnapshotSuffix) && Separator !in SnapshotSuffix && '-' !in SnapshotSuffix;
    assert forall i :: |l| <= i < |s| ==> s[i] == SnapshotSuffix[i - |l|];
    assert forall i :: 0 <= i < |l| ==> s[i] == l[i];
  }

  /**
   * The table of an aggregate type that has no entry in the table map:
   * the lower-cased short name, with `_snapshot` appended when the lower-cased
   * short name does not already contain `_snapshot`. `getTable` tests this with
   * `strpos(...) === false`, which `StrPos`'s contract shows is `!Contains(...)`.
   */
  function DeriveTable(t: string): (r: string)
    ensures var l := Lower(ShortName(t));
      (Contains(l, SnapshotSuffix) ==> r == l) &&
      (!Contains(l, SnapshotSuffix) ==> r == l + SnapshotSuffix)
    ensures IsDerivedShape(r)
  {
    var l := Lower(ShortName(t));
    LowerShape(ShortName(t));
    if StrPos(l, SnapshotSuffix).None? then
      SuffixAppended(l);
      l + SnapshotSuffix
    else l
  }

  /**
   * `getTable`: the table map's entry for `t` when there is one, verbatim;
   * otherwise the derived name.
   */
  function GetTable(tableMap: map<string, string>, t: string): (r: string)
    ensures t in tableMap ==> r == tableMap[t]
    ensures t !in tableMap ==> IsDerivedShape(r)
  {
    if t in tableMap then tableMap[t] else DeriveTable(t)
  }

  // ---------------------------------------------------------------------
  // Properties
  // ---------------------------------------------------------------------

  /** A string without hyphens is left alone by `ReplaceDashes`. */
  lemma ReplaceDashesNoDash(s: string)
    requires '-' !in s
    ensures ReplaceDashes(s) == s
  {
    var d := ReplaceDashes(s);
    forall i | 0 <= i < |s| ensures d[i] == s[i] {
      assert s[i] != '-';
    }
  }

  /**
   * Derivation is idempotent: a derived table name, taken as a type name and
   * derived again, comes back unchanged.
   */
  lemma DeriveTableIdempotent(t: string)
    ensures DeriveTable(DeriveTable(t)) == DeriveTable(t)
  {
    var d := DeriveTable(t);
    ReplaceDashesNoDash(d);
    assert ShortName(d) == d;
    assert Lower(d) == d;
  }

  /** The same, for a full table resolution of an unmapped type. */
  lemma GetTableDerivedStable(tableMap: map<string, string>, t: string)
    requires t !in tableMap
    requires GetTable(tableMap, t) !in tableMap
    ensures GetTable(tableMap, GetTable(tableMap, t)) == GetTable(tableMap, t)
  {
    DeriveTableIdempotent(t);
  }

  /** The last piece of `prefix + sep + last` is `last`, whatever `prefix` holds. */
  lemma {:induction false} ExplodeLastPiece(prefix: string, last: string, sep: char)
    requires sep !in last
    ensures var parts := Explode(prefix + [sep] + last, sep); parts[|parts| - 1] == last
    decreases |prefix|
  {
    var s := prefix + [sep] + last;
    if prefix == [] {
      assert s[1..] == last;
    } else {
      assert s[1..] == prefix[1..] + [sep] + last;
      ExplodeLastPiece(prefix[1..], last, sep);
    }
  }

  /** A needle longer than the haystack occurs nowhere in it. */
  lemma TooShortToContain(hay: string, needle: string)
    requires |hay| < |needle|
    ensures !Contains(hay, needle)
  {
  }

  /** A needle with a character the haystack lacks occurs nowhere in it. */
  lemma MissingCharNotContained(hay: string, needle: string, c: char)
    requires c in needle && c !in hay
    ensures !Contains(hay, needle)
  {
  }

  // ---------------------------------------------------------------------
  // Worked examples
  // ---------------------------------------------------------------------

  // The solver unfolds functions applied to string literals without bound, so
  // each example below is stated for a variable equal to the literal and is
  // assembled from single-step facts.

  /** Hyphen replacement works piece by piece. */
  lemma ReplaceDashesConcat(a: string, b: string)
    ensures ReplaceDashes(a + b) == ReplaceDashes(a) + ReplaceDashes(b)
  {
    var l, r := ReplaceDashes(a + b), ReplaceDashes(a) + ReplaceDashes(b);
    forall i | 0 <= i < |a + b| ensures l[i] == r[i] {
      if i < |a| {
        assert (a + b)[i] == a[i];
      } else {
        assert (a + b)[i] == b[i - |a|];
      }
    }
  }

  /**
   * The short name of a type string `prefix\short`, with `short` free of `\`,
   * is `short` with its hyphens replaced, whatever the prefix holds.
   */
  lemma ShortNameOfQualified(t: string, prefix: string, short: string)
    requires t == prefix + [Separator] + short && Separator !in short
    ensures ShortName(t) == ReplaceDashes(short)
  {
    ReplaceDashesConcat(prefix + [Separator], short);
    ReplaceDashesConcat(prefix, [Separator]);
    assert ReplaceDashes([Separator]) == [Separator];
    SeparatorSurvivesDashes(short);
    ExplodeLastPiece(ReplaceDashes(prefix), ReplaceDashes(short), Separator);
  }

  /** `ShortNameOfQualified` for a hyphen-free last segment. */
  lemma HyphenFreeShortName(t: string, prefix: string, short: string)
    requires t == prefix + [Separator] + short && Separator !in short && '-' !in short
    ensures ShortName(t) == short
  {
    ShortNameOfQualified(t, prefix, short);
    ReplaceDashesNoDash(short);
  }

  /** `DeriveTable` from a known short name and its lower-cased form. */
  lemma {:induction false} DeriveTableOf(t: string, short: string, l: string)
    requires ShortName(t) == short && Lower(short) == l
    ensures Contains(l, SnapshotSuffix) ==> DeriveTable(t) == l
    ensures !Contains(l, SnapshotSuffix) ==> DeriveTable(t) == l + SnapshotSuffix
  {
  }

  lemma LowerUser()
    ensures Lower("User") == "user"
  {
  }

  lemma HyphenReplaced(t: string)
    requires t == "Order-Line"
    ensures ShortName(t) == "Order_Line"
  {
    ReplaceDashesConcat("Order", "-Line");
    ReplaceDashesConcat("-", "Line");
    ReplaceDashesNoDash("Order");
    ReplaceDashesNoDash("Line");
    assert forall i :: 0 <= i < |t| ==> t[i] != Separator;
  }

  lemma LowerOrderLine(t: string)
    requires t == "Order_Line"
    ensures Lower(t) == "order_line"
  {
  }

  lemma OrderLineUnsuffixed(l: string)
    requires l == "order_line"
    ensures !Contains(l, SnapshotSuffix)
  {
    MissingCharNotContained(l, SnapshotSuffix, 's');
  }

  lemma LowerUserSuffixed(t: string)
    requires t == "User_Snapshot"
    ensures Lower(t) == "user_snapshot"
  {
  }

  lemma SuffixAt4(t: string)
    requires t == "user_snapshot"
    ensures Contains(t, SnapshotSuffix)
  {
    assert OccursAt(t, SnapshotSuffix, 4);
  }

  lemma LowerUserSnapshot(t: string)
    requires t == "UserSnapshot"
    ensures Lower(t) == "usersnapshot"
  {
  }

  lemma UserSnapshotUnsuffixed(l: string)
    requires l == "usersnapshot"
    ensures !Contains(l, SnapshotSuffix)
  {
    MissingCharNotContained(l, SnapshotSuffix, '_');
  }

  /** `App\Domain\User` resolves to `user_snapshot`. */
  lemma ExampleNamespacedUser(t: string)
    requires t == "App\\Domain\\User"
    ensures DeriveTable(t) == "user_snapshot"
  {
    HyphenFreeShortName(t, "App\\Domain", "User");
    LowerUser();
    TooShortToContain("user", SnapshotSuffix);
    DeriveTableOf(t, "User", "user");
  }

  /** `Order-Line` resolves to `order_line_snapshot`. */
  lemma ExampleHyphen(t: string)
    requires t == "Order-Line"
    ensures DeriveTable(t) == "order_line" + SnapshotSuffix
  {
    HyphenReplaced(t);
    LowerOrderLine("Order_Line");
    OrderLineUnsuffixed("order_line");
    DeriveTableOf(t, "Order_Line", "order_line");
  }

  /** A short name that already contains `_snapshot` once lower-cased gets no second suffix. */
  lemma ExampleAlreadySuffixed(t: string)
    requires t == "App\\User_Snapshot"
    ensures DeriveTable(t) == "user_snapshot"
  {
    HyphenFreeShortName(t, "App", "User_Snapshot");
    LowerUserSuffixed("User_Snapshot");
    SuffixAt4("user_snapshot");
    DeriveTableOf(t, "User_Snapshot", "user_snapshot");
  }

  /**
   * `UserSnapshot` lower-cases to `usersnapshot`, which has no underscore, so
   * the suffix is appended: the table is `usersnapshot_snapshot`.
   */
  lemma ExampleUserSnapshot(t: string)
    requires t == "App\\UserSnapshot"
    ensures DeriveTable(t) == "usersnapshot" + SnapshotSuffix
  {
    HyphenFreeShortName(t, "App", "UserSnapshot");
    LowerUserSnapshot("UserSnapshot");
    UserSnapshotUnsuffixed("usersnapshot");
    DeriveTableOf(t, "UserSnapshot", "usersnapshot");
  }

  /** A mapped type gets its mapped table. */
  lemma ExampleMapped(tableMap: map<string, string>)
    requires tableMap == map["x" := "custom_tbl"]
    ensures GetTable(tableMap, "x") == "custom_tbl"
  {
  }

  /** Two namespaces, one short name: both types resolve to the same unmapped table. */
  lemma ExampleSharedShortName(t1: string, t2: string)
    requires t1 == "A\\User" && t2 == "B\\User"
    ensures GetTable(map[], t1) == GetTable(map[], t2) == "user" + SnapshotSuffix
  {
    HyphenFreeShortName(t1, "A", "User");
    HyphenFreeShortName(t2, "B", "User");
    LowerUser();
    TooShortToContain("user", SnapshotSuffix);
    DeriveTableOf(t1, "User", "user");
    DeriveTableOf(t2, "User", "user");
  }
}
