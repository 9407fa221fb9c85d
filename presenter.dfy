/** Where a presenter of the framework looks for its templates. A presenter
    whose class lies in a package (its namespace has a `Package\` part and
    no `Module\` part) looks first in the package's own view directory and
    then in the application's `templates` directory; any other presenter
    keeps the lists of the presenter it extends.

    The two directories are parameters: the package's view directory is a
    `realpath` and the application's one a container expansion. */
module Presenters {
  import opened Common

  /** `isInPackage()`: `stripos($class, 'Package\\') !== FALSE &&
      stripos($class, 'Module\\') === FALSE`. */
  predicate IsInPackage(className: string)
  {
    ContainsIgnoreCase(className, "Package\\") && !ContainsIgnoreCase(className, "Module\\")
  }

  /** A class is in a package exactly when `Package\` occurs in its name and
      `Module\` does not, in any case. */
  lemma IsInPackageSpec(className: string)
    ensures IsInPackage(className) <==>
      (exists i :: OccursAtIgnoreCase(className, "Package\\", i)) && !(exists i :: OccursAtIgnoreCase(className, "Module\\", i))
  {
    ContainsIgnoreCaseIff(className, "Package\\");
    ContainsIgnoreCaseIff(className, "Module\\");
  }

  /** `substr($name, strrpos(':' . $name, ':'))`: the presenter's short
      name. The leading `:` makes the position one past the last `:` of the
      name, or 0 when there is none. */
  function ShortName(name: string): (r: string)
    ensures ':' !in r && |r| <= |name|
    ensures r == name[|name| - |r|..]
    ensures ':' !in name ==> r == name
    ensures ':' in name ==> |r| < |name| && name[|name| - |r| - 1] == ':'
  {
    AfterLastSpec(name, ':');
    AfterLast(name, ':')
  }

  /** `$this->layout ? $this->layout : 'layout'`. */
  function LayoutName(layout: Option<string>): (r: string)
    ensures TruthyOpt(layout) ==> r == layout.value
    ensures !TruthyOpt(layout) ==> r == "layout"
  {
    if TruthyOpt(layout) then layout.value else "layout"
  }

  /** `"$views/$file.latte"`. */
  function Candidate(views: string, file: string): string
  {
    views + "/" + file + ".latte"
  }

  /** The layout closure for one view directory: `$v/$p/@$l.latte`,
      `$v/$p.@$l.latte`, `$v/@$l.latte`. */
  function LayoutCandidates(views: string, presenter: string, layout: string): seq<string>
  {
    [Candidate(views, presenter + "/@" + layout), Candidate(views, presenter + ".@" + layout), Candidate(views, "@" + layout)]
  }

  /** The template closure for one view directory: `$v/$p/$view.latte`,
      `$v/$p.$view.latte`. */
  function TemplateCandidates(views: string, presenter: string, view: string): seq<string>
  {
    [Candidate(views, presenter + "/" + view), Candidate(views, presenter + "." + view)]
  }

  /** `formatLayoutTemplateFiles()`; `inherited` is the list the parent
      presenter would give. */
  function FormatLayoutTemplateFiles(className: string, name: string, layout: Option<string>,
                                     packageViews: string, appTemplates: string, inherited: seq<string>): (r: seq<string>)
    ensures !IsInPackage(className) ==> r == inherited
    ensures IsInPackage(className) ==> |r| == 6
  {
    if !IsInPackage(className) then inherited
    else
      var presenter := ShortName(name);
      var l := LayoutName(layout);
      LayoutCandidates(packageViews, presenter, l) + LayoutCandidates(appTemplates, presenter, l)
  }

  /** `formatTemplateFiles()`; `inherited` is the list the parent presenter
      would give. */
  function FormatTemplateFiles(className: string, name: string, view: string,
                               packageViews: string, appTemplates: string, inherited: seq<string>): (r: seq<string>)
    ensures !IsInPackage(className) ==> r == inherited
    ensures IsInPackage(className) ==> |r| == 4
  {
    if !IsInPackage(className) then inherited
    else
      var presenter := ShortName(name);
      TemplateCandidates(packageViews, presenter, view) + TemplateCandidates(appTemplates, presenter, view)
  }

  /** `p` names a `.latte` file. */
  predicate EndsWithLatte(p: string)
  {
    |p| >= 6 && p[|p| - 6..] == ".latte"
  }

  /** `p` lies under the directory `dir`. */
  predicate StartsWithDir(p: string, dir: string)
  {
    |p| > |dir| && p[..|dir| + 1] == dir + "/"
  }

  /** A candidate is a `.latte` file under its directory. */
  lemma CandidateInDirectory(views: string, file: string)
    ensures EndsWithLatte(Candidate(views, file)) && StartsWithDir(Candidate(views, file), views)
  {
    var p := Candidate(views, file);
    assert p[|p| - 6..] == ".latte";
    assert p[..|views| + 1] == views + "/";
  }

  /** The layout candidates of a package presenter: the first three are
      `.latte` files under the package's view directory, the last three the
      same files under the application's directory; the last of each three
      is the directory's own layout, whatever the presenter. */
  lemma LayoutCandidatesSpec(className: string, name: string, layout: Option<string>,
                             packageViews: string, appTemplates: string, inherited: seq<string>)
    requires IsInPackage(className)
    ensures var r := FormatLayoutTemplateFiles(className, name, layout, packageViews, appTemplates, inherited);
      (forall i :: 0 <= i < 3 ==> EndsWithLatte(r[i]) && StartsWithDir(r[i], packageViews)) &&
      (forall i :: 3 <= i < 6 ==> EndsWithLatte(r[i]) && StartsWithDir(r[i], appTemplates)) &&
      r[2] == Candidate(packageViews, "@" + LayoutName(layout)) && r[5] == Candidate(appTemplates, "@" + LayoutName(layout))
  {
    var presenter, l := ShortName(name), LayoutName(layout);
    CandidateInDirectory(packageViews, presenter + "/@" + l);
    CandidateInDirectory(packageViews, presenter + ".@" + l);
    CandidateInDirectory(packageViews, "@" + l);
    CandidateInDirectory(appTemplates, presenter + "/@" + l);
    CandidateInDirectory(appTemplates, presenter + ".@" + l);
    CandidateInDirectory(appTemplates, "@" + l);
  }

  /** The view candidates of a package presenter: two `.latte` files under
      the package's view directory, then two under the application's. */
  lemma TemplateCandidatesSpec(className: string, name: string, view: string,
                               packageViews: string, appTemplates: string, inherited: seq<string>)
    requires IsInPackage(className)
    ensures var r := FormatTemplateFiles(className, name, view, packageViews, appTemplates, inherited);
      (forall i :: 0 <= i < 2 ==> EndsWithLatte(r[i]) && StartsWithDir(r[i], packageViews)) &&
      (forall i :: 2 <= i < 4 ==> EndsWithLatte(r[i]) && StartsWithDir(r[i], appTemplates))
  {
    var presenter := ShortName(name);
    CandidateInDirectory(packageViews, presenter + "/" + view);
    CandidateInDirectory(packageViews, presenter + "." + view);
    CandidateInDirectory(appTemplates, presenter + "/" + view);
    CandidateInDirectory(appTemplates, presenter + "." + view);
  }
}
