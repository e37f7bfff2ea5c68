/** `formatChangelog` (public/script.js): the changelog popup's HTML, one
    section per version in list order, built by appending to a string. */
module Changelog {
  import opened Strings

  /** An element of `data.versions`. */
  datatype Version = Version(version: string, date: string, changes: seq<string>)

  const Heading := "<h2>Changelog</h2>"

  /** The template literal's indentation: 12, 16 and 20 spaces. */
  const Indent12 := "            "
  const Indent16 := Indent12 + "    "
  const Indent20 := Indent16 + "    "

  /** `changes.map(change => "<li>" + change + "</li>")`. */
  function Items(changes: seq<string>): (items: seq<string>)
    ensures |items| == |changes|
    ensures forall k :: 0 <= k < |changes| ==> items[k] == "<li>" + changes[k] + "</li>"
  {
    seq(|changes|, k requires 0 <= k < |changes| => "<li>" + changes[k] + "</li>")
  }

  /** The fixed pieces of the template literal, with its line breaks and indentation. */
  const VersionOpen := "\n" + Indent16 + "<p><strong>Version "
  const DateOpen := "</strong> - ("
  const ListOpen := ")</p>\n" + Indent16 + "<ul>\n" + Indent20
  const ListClose := "\n" + Indent16 + "</ul>\n" + Indent12

  /** The text one version appends: the version line, then the list of its
      changes joined without a separator. */
  function Section(v: Version): (section: string)
  {
    VersionOpen + v.version + DateOpen + v.date + ListOpen + Join(Items(v.changes), "") + ListClose
  }

  /** The sections of the versions, first version first. */
  function Sections(versions: seq<Version>): (html: string)
    decreases |versions|
  {
    if versions == [] then ""
    else Sections(versions[..|versions| - 1]) + Section(versions[|versions| - 1])
  }

  /** The sections of two lists of versions are those of the first list, then
      those of the second: the text of each version does not depend on the others. */
  lemma {:induction false} SectionsConcat(a: seq<Version>, b: seq<Version>)
    ensures Sections(a + b) == Sections(a) + Sections(b)
    decreases |b|
  {
    if b == [] {
      assert a + b == a;
    } else {
      var b' := b[..|b| - 1];
      assert (a + b)[..|a + b| - 1] == a + b';
      assert (a + b)[|a + b| - 1] == b[|b| - 1];
      SectionsConcat(a, b');
      AppendAssoc(Sections(a), Sections(b'), Section(b[|b| - 1]));
    }
  }

  /** The joined items of two lists of changes are the joined items of the
      first list followed by those of the second. */
  lemma {:induction false} ItemsConcat(a: seq<string>, b: seq<string>)
    ensures Join(Items(a + b), "") == Join(Items(a), "") + Join(Items(b), "")
  {
    assert Items(a + b) == Items(a) + Items(b);
    JoinConcat(Items(a), Items(b), "");
    if a == [] {
      assert Join(Items(a), "") == "";
    } else if b == [] {
      assert Join(Items(b), "") == "";
    }
  }

  /** `formatChangelog(data)`: the heading, then each version's section appended in turn. */
  method FormatChangelog(versions: seq<Version>) returns (html: string)
    ensures html == Heading + Sections(versions)
    ensures Heading <= html
  {
    html := Heading;
    for i := 0 to |versions|
      invariant html == Heading + Sections(versions[..i])
    {
      assert versions[..i + 1][..i] == versions[..i];
      var section := Section(versions[i]);
      assert Sections(versions[..i + 1]) == Sections(versions[..i]) + section;
      AppendAssoc(Heading, Sections(versions[..i]), section);
      html := html + section;
    }
    assert versions[..|versions|] == versions;
  }
}
