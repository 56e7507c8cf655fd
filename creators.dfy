/**
 * `getCreators`: creator rows `(creatorType, firstName, lastName)`, ordered
 * by role and then by position, are folded into one dictionary holding,
 * for every role, the " and "-joined "surname, given" string under the
 * role's name and the list of `{given_name, surname}` entries under
 * `<role>_list`.
 */
module Creators {
  import opened Common

  /** One row of the creator query: `creatorType, firstName, lastName`. */
  datatype CreatorRow = CreatorRow(creatorType: string, firstName: string, lastName: string)

  function PersonOf(row: CreatorRow): Person
  {
    Person(row.firstName, row.lastName)
  }

  /** `f"{surname}, {givenName}"`. */
  function Display(p: Person): string
  {
    p.surname + ", " + p.givenName
  }

  function ListKey(role: string): string
  {
    role + "_list"
  }

  /** `sep.join(parts)`. */
  function JoinWith(sep: string, parts: seq<string>): string
  {
    if parts == [] then ""
    else if |parts| == 1 then parts[0]
    else parts[0] + sep + JoinWith(sep, parts[1..])
  }

  function Displays(ps: seq<Person>): (r: seq<string>)
    ensures |r| == |ps| && forall k :: 0 <= k < |ps| ==> r[k] == Display(ps[k])
  {
    seq(|ps|, k requires 0 <= k < |ps| => Display(ps[k]))
  }

  /** One pass of the loop of `getCreators`. */
  function AddCreator(creators: map<string, Value>, row: CreatorRow): map<string, Value>
  {
    var role := row.creatorType;
    var current := if role in creators && creators[role].Text? then creators[role].text else "";
    var joined := (if current != "" then current + " and " else current) + Display(PersonOf(row));
    var list := if ListKey(role) in creators && creators[ListKey(role)].People?
                then creators[ListKey(role)].people else [];
    creators[role := Text(joined)][ListKey(role) := People(list + [PersonOf(row)])]
  }

  /** The creator dictionary after every row has been added in order. */
  function CreatorMap(rows: seq<CreatorRow>): map<string, Value>
  {
    if rows == [] then map[] else AddCreator(CreatorMap(rows[..|rows| - 1]), rows[|rows| - 1])
  }

  /** The loop of `getCreators`. */
  method GetCreators(rows: seq<CreatorRow>) returns (creators: map<string, Value>)
    ensures creators == CreatorMap(rows)
  {
    creators := map[];
    for i := 0 to |rows|
      invariant creators == CreatorMap(rows[..i])
    {
      ghost var before := creators;
      var role, givenName, surname := rows[i].creatorType, rows[i].firstName, rows[i].lastName;
      var roleList := role + "_list";

      var current := if role in creators && creators[role].Text? then creators[role].text else "";
      if current != "" {
        current := current + " and ";
      }
      current := current + (surname + ", " + givenName);
      creators := creators[role := Text(current)];

      var list := if roleList in creators && creators[roleList].People? then creators[roleList].people else [];
      list := list + [Person(givenName, surname)];
      creators := creators[roleList := People(list)];

      assert roleList != role by { assert |roleList| > |role|; }
      assert creators == AddCreator(before, rows[i]);

      assert rows[..i + 1][..i] == rows[..i];
    }
    assert rows[..|rows|] == rows;
  }

  /** The roles that occur in the rows. */
  function Roles(rows: seq<CreatorRow>): set<string>
  {
    set i | 0 <= i < |rows| :: rows[i].creatorType
  }

  /** The people of one role, in row order. */
  function PeopleOf(rows: seq<CreatorRow>, role: string): seq<Person>
  {
    if rows == [] then []
    else PeopleOf(rows[..|rows| - 1], role)
         + (if rows[|rows| - 1].creatorType == role then [PersonOf(rows[|rows| - 1])] else [])
  }

  /**
   * No role is another role's `_list` key. Zotero's creator types never end
   * in "_list"; were one to, the converter would store a string and a list under
   * one key and extend the list character by character.
   */
  predicate NoKeyClash(rows: seq<CreatorRow>)
  {
    forall i, j :: 0 <= i < |rows| && 0 <= j < |rows| ==> rows[i].creatorType != ListKey(rows[j].creatorType)
  }

  lemma {:induction false} PeopleOfAbsent(rows: seq<CreatorRow>, role: string)
    requires role !in Roles(rows)
    ensures PeopleOf(rows, role) == []
    decreases |rows|
  {
    if rows != [] {
      var init := rows[..|rows| - 1];
      forall i | 0 <= i < |init| ensures init[i].creatorType != role {
        assert init[i] == rows[i];
      }
      PeopleOfAbsent(init, role);
    }
  }

  /** Appending one more part to a non-empty join adds one separator and the part. */
  lemma {:induction false} JoinWithSnoc(sep: string, parts: seq<string>, x: string)
    requires parts != []
    ensures JoinWith(sep, parts + [x]) == JoinWith(sep, parts) + sep + x
    decreases |parts|
  {
    if |parts| == 1 {
      assert (parts + [x])[1..] == [x];
    } else {
      assert (parts + [x])[1..] == parts[1..] + [x];
      JoinWithSnoc(sep, parts[1..], x);
    }
  }

  lemma {:induction false} JoinWithNonEmpty(sep: string, parts: seq<string>)
    requires parts != [] && parts[0] != ""
    ensures JoinWith(sep, parts) != ""
  {
    assert parts[0] <= JoinWith(sep, parts);
  }

  /** The keys are the roles and their `_list` keys. */
  lemma {:induction false} CreatorMapKeys(rows: seq<CreatorRow>)
    ensures CreatorMap(rows).Keys == Roles(rows) + (set r | r in Roles(rows) :: ListKey(r))
    decreases |rows|
  {
    if rows != [] {
      var init := rows[..|rows| - 1];
      var last := rows[|rows| - 1];
      CreatorMapKeys(init);
      assert Roles(rows) == Roles(init) + {last.creatorType} by {
        forall r | r in Roles(rows) ensures r in Roles(init) + {last.creatorType} {
          var i :| 0 <= i < |rows| && rows[i].creatorType == r;
          if i < |rows| - 1 {
            assert init[i].creatorType == r;
          }
        }
        forall r | r in Roles(init) ensures r in Roles(rows) {
          var i :| 0 <= i < |init| && init[i].creatorType == r;
          assert rows[i].creatorType == r;
        }
        assert rows[|rows| - 1].creatorType == last.creatorType;
      }
    }
  }

  /**
   * For every role: the role's key holds the " and "-join, in row order, of
   * "surname, given" of that role's rows, and its `_list` key holds those
   * people, entry for entry.
   */
  lemma {:induction false} CreatorEntries(rows: seq<CreatorRow>, role: string)
    requires NoKeyClash(rows)
    requires role in Roles(rows)
    ensures role in CreatorMap(rows) && ListKey(role) in CreatorMap(rows)
    ensures CreatorMap(rows)[role] == Text(JoinWith(" and ", Displays(PeopleOf(rows, role))))
    ensures CreatorMap(rows)[ListKey(role)] == People(PeopleOf(rows, role))
    decreases |rows|
  {
    var init := rows[..|rows| - 1];
    var last := rows[|rows| - 1];
    NoKeyClashPrefix(rows);
    var k :| 0 <= k < |rows| && rows[k].creatorType == role;
    assert ListKey(last.creatorType) != role by {
      assert rows[k].creatorType != ListKey(rows[|rows| - 1].creatorType);
    }
    if last.creatorType == role {
      assert PeopleOf(rows, role) == PeopleOf(init, role) + [PersonOf(last)];
      if role in Roles(init) {
        CreatorEntries(init, role);
        var i :| 0 <= i < |init| && init[i].creatorType == role;
        PeopleNonEmpty(init, role, i);
        AddCreatorExtends(CreatorMap(init), last, PeopleOf(init, role));
      } else {
        PeopleOfAbsent(init, role);
        RoleNotStored(rows);
        AddCreatorStarts(CreatorMap(init), last);
      }
    } else {
      assert init[k].creatorType == role;
      CreatorEntries(init, role);
      ListKeyInjective(role, last.creatorType);
      assert PeopleOf(rows, role) == PeopleOf(init, role);
      assert CreatorMap(rows) == AddCreator(CreatorMap(init), last);
    }
  }

  lemma NoKeyClashPrefix(rows: seq<CreatorRow>)
    requires rows != [] && NoKeyClash(rows)
    ensures NoKeyClash(rows[..|rows| - 1])
  {
    var init := rows[..|rows| - 1];
    forall i, j | 0 <= i < |init| && 0 <= j < |init|
      ensures init[i].creatorType != ListKey(init[j].creatorType)
    {
      assert init[i] == rows[i] && init[j] == rows[j];
    }
  }

  /** A role seen for the first time has no key yet in the dictionary built so far. */
  lemma RoleNotStored(rows: seq<CreatorRow>)
    requires rows != [] && NoKeyClash(rows)
    requires rows[|rows| - 1].creatorType !in Roles(rows[..|rows| - 1])
    ensures rows[|rows| - 1].creatorType !in CreatorMap(rows[..|rows| - 1])
    ensures ListKey(rows[|rows| - 1].creatorType) !in CreatorMap(rows[..|rows| - 1])
  {
    var init := rows[..|rows| - 1];
    var role := rows[|rows| - 1].creatorType;
    CreatorMapKeys(init);
    forall r | r in Roles(init) ensures ListKey(r) != role && ListKey(r) != ListKey(role) {
      var j :| 0 <= j < |init| && init[j].creatorType == r;
      assert rows[|rows| - 1].creatorType != ListKey(rows[j].creatorType);
      ListKeyInjective(r, role);
    }
    assert ListKey(role) != role by { assert |ListKey(role)| > |role|; }
  }

  lemma ListKeyInjective(a: string, b: string)
    requires a != b
    ensures ListKey(a) != ListKey(b)
  {
    if |a| == |b| {
      assert ListKey(a)[..|a|] == a && ListKey(b)[..|b|] == b;
    } else {
      assert |ListKey(a)| != |ListKey(b)|;
    }
  }

  /** A further person of a role already present extends both the string and the list. */
  lemma AddCreatorExtends(m: map<string, Value>, row: CreatorRow, people: seq<Person>)
    requires people != []
    requires row.creatorType in m && m[row.creatorType] == Text(JoinWith(" and ", Displays(people)))
    requires ListKey(row.creatorType) in m && m[ListKey(row.creatorType)] == People(people)
    ensures AddCreator(m, row)[row.creatorType] == Text(JoinWith(" and ", Displays(people + [PersonOf(row)])))
    ensures AddCreator(m, row)[ListKey(row.creatorType)] == People(people + [PersonOf(row)])
  {
    assert ListKey(row.creatorType) != row.creatorType by { assert |ListKey(row.creatorType)| > |row.creatorType|; }
    JoinWithNonEmpty(" and ", Displays(people));
    assert Displays(people + [PersonOf(row)]) == Displays(people) + [Display(PersonOf(row))];
    JoinWithSnoc(" and ", Displays(people), Display(PersonOf(row)));
  }

  /** The first person of a role starts both the string and the list. */
  lemma AddCreatorStarts(m: map<string, Value>, row: CreatorRow)
    requires row.creatorType !in m && ListKey(row.creatorType) !in m
    ensures AddCreator(m, row)[row.creatorType] == Text(JoinWith(" and ", Displays([PersonOf(row)])))
    ensures AddCreator(m, row)[ListKey(row.creatorType)] == People([PersonOf(row)])
  {
    assert ListKey(row.creatorType) != row.creatorType by { assert |ListKey(row.creatorType)| > |row.creatorType|; }
    assert Displays([PersonOf(row)]) == [Display(PersonOf(row))];
  }

  lemma {:induction false} PeopleNonEmpty(rows: seq<CreatorRow>, role: string, i: nat)
    requires i < |rows| && rows[i].creatorType == role
    ensures PeopleOf(rows, role) != []
    decreases |rows|
  {
    if i < |rows| - 1 {
      var init := rows[..|rows| - 1];
      assert init[i] == rows[i];
      PeopleNonEmpty(init, role, i);
    }
  }

  /** Order: the people of a concatenation are the people of each part, in turn. */
  lemma {:induction false} PeopleOfAppend(a: seq<CreatorRow>, b: seq<CreatorRow>, role: string)
    ensures PeopleOf(a + b, role) == PeopleOf(a, role) + PeopleOf(b, role)
    decreases |b|
  {
    if b == [] {
      assert a + b == a;
    } else {
      assert (a + b)[..|a + b| - 1] == a + b[..|b| - 1];
      PeopleOfAppend(a, b[..|b| - 1], role);
    }
  }

  /** A joined list starts with its first part and ends with its last: no leading or trailing separator. */
  lemma {:induction false} JoinWithEnds(sep: string, parts: seq<string>)
    requires parts != []
    ensures parts[0] <= JoinWith(sep, parts)
    ensures |parts[|parts| - 1]| <= |JoinWith(sep, parts)|
    ensures JoinWith(sep, parts)[|JoinWith(sep, parts)| - |parts[|parts| - 1]|..] == parts[|parts| - 1]
    decreases |parts|
  {
    if |parts| > 1 {
      JoinWithEnds(sep, parts[1..]);
    }
  }

  /** Two creators of one role: both appear, in row order, in the string and in the list. */
  lemma TwoOfOneRole(r0: CreatorRow, r1: CreatorRow)
    requires r0.creatorType == r1.creatorType
    ensures var m := CreatorMap([r0, r1]);
      && m.Keys == {r0.creatorType, ListKey(r0.creatorType)}
      && m[r0.creatorType] == Text(Display(PersonOf(r0)) + " and " + Display(PersonOf(r1)))
      && m[ListKey(r0.creatorType)] == People([PersonOf(r0), PersonOf(r1)])
  {
    var rows := [r0, r1];
    assert rows[..1] == [r0];
    assert [r0][..0] == [];
    var first := AddCreator(map[], r0);
    assert CreatorMap([r0]) == AddCreator(CreatorMap([]), r0);
    assert CreatorMap([r0]) == first;
    AddCreatorStarts(map[], r0);
    assert Displays([PersonOf(r0)]) == [Display(PersonOf(r0))];
    assert CreatorMap(rows) == AddCreator(first, r1);
    AddCreatorExtends(first, r1, [PersonOf(r0)]);
    assert Displays([PersonOf(r0), PersonOf(r1)]) == [Display(PersonOf(r0)), Display(PersonOf(r1))];
    assert [PersonOf(r0)] + [PersonOf(r1)] == [PersonOf(r0), PersonOf(r1)];
  }
}
