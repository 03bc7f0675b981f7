/** The path parsers of the four pages. Each takes the `redirect` query
    parameter (set by the site's 404 page) or else the pathname, and runs an
    unanchored regular expression over it:
      group page  `\/christmas-bingo\/([^\/]+)`
      admin page  `\/christmas-bingo\/([^\/]+)\/admin`
      view page   `\/christmas-bingo\/([^\/]+)\/([^\/]+)\/view`
      edit page   `\/christmas-bingo\/([^\/]+)\/([^\/]+)\/edit`
    A `[^\/]+` group followed by `/` or by the end of its pattern can only
    capture a maximal run of non-slash characters, so a match at a given
    position has a single outcome, and the regular expression finds the
    leftmost position that matches. */
module Routes {
  import opened Wrappers

  const Prefix: string := "/christmas-bingo/"

  /** `redirectPath || window.location.pathname`: an empty parameter counts
      as no parameter. */
  function EffectivePath(redirect: Option<string>, pathname: string): (path: string)
    ensures redirect.Some? && redirect.value != [] ==> path == redirect.value
    ensures redirect.None? || redirect.value == [] ==> path == pathname
  {
    if redirect.Some? && redirect.value != [] then redirect.value else pathname
  }

  /** `lit` occurs in `s` at position `p`. */
  predicate At(s: string, p: nat, lit: string) {
    p + |lit| <= |s| && s[p..p + |lit|] == lit
  }

  /** The length of the run of non-slash characters starting at `i`. */
  function Run(s: string, i: nat): (n: nat)
    requires i <= |s|
    ensures i + n <= |s|
    ensures i + n == |s| || s[i + n] == '/'
    decreases |s| - i
  {
    if i < |s| && s[i] != '/' then 1 + Run(s, i + 1) else 0
  }

  /** The run holds no slash. */
  lemma {:induction false} RunNoSlash(s: string, i: nat)
    requires i <= |s|
    ensures '/' !in s[i..i + Run(s, i)]
    decreases |s| - i
  {
    if i < |s| && s[i] != '/' {
      RunNoSlash(s, i + 1);
      assert s[i..i + Run(s, i)] == [s[i]] + s[i + 1..i + 1 + Run(s, i + 1)];
    }
  }

  /** A segment: non-empty and free of slashes. */
  predicate IsSegment(w: string) {
    w != [] && '/' !in w
  }

  datatype Pattern =
    | GroupPattern                // group.js
    | AdminPattern                // admin.js
    | PagePattern(page: string)   // "view" in user-view.js, "edit" in user-edit.js

  function Groups(pat: Pattern): nat {
    if pat.PagePattern? then 2 else 1
  }

  /** The segment that starts at `i`, when it is not empty. */
  function SegmentAt(s: string, i: nat): (w: Option<string>)
    requires i <= |s|
    ensures w.Some? ==> IsSegment(w.value) && i + |w.value| <= |s|
  {
    var n := Run(s, i);
    RunNoSlash(s, i);
    if n == 0 then None else Some(s[i..i + n])
  }

  /** `\/([^\/]+)\/page` tried at position `e`: the second capture of the
      view and edit patterns. */
  function PageTail(s: string, e: nat, page: string): (w: Option<string>)
    requires e <= |s|
    ensures w.Some? ==> IsSegment(w.value)
  {
    if e == |s| || s[e] != '/' then None
    else
      var u := SegmentAt(s, e + 1);
      if u.Some? && At(s, e + 1 + |u.value|, ['/'] + page) then u else None
  }

  /** The captures of `pat` tried at position `p` of `s`. */
  function MatchAt(pat: Pattern, s: string, p: nat): (caps: Option<seq<string>>)
    ensures caps.Some? ==> |caps.value| == Groups(pat)
    ensures caps.Some? ==> forall k :: 0 <= k < |caps.value| ==> IsSegment(caps.value[k])
  {
    if !At(s, p, Prefix) then None
    else
      var g := SegmentAt(s, p + |Prefix|);
      if g.None? then None
      else
        var e := p + |Prefix| + |g.value|;
        match pat
        case GroupPattern => Some([g.value])
        case AdminPattern => if At(s, e, "/admin") then Some([g.value]) else None
        case PagePattern(page) =>
          var u := PageTail(s, e, page);
          if u.Some? then Some([g.value, u.value]) else None
  }

  /** The leftmost position from `p` on at which `pat` matches. */
  function Search(pat: Pattern, s: string, p: nat): (r: Option<nat>)
    requires p <= |s|
    ensures r.None? ==> forall q :: p <= q <= |s| ==> MatchAt(pat, s, q).None?
    ensures r.Some? ==> p <= r.value <= |s| && MatchAt(pat, s, r.value).Some?
    ensures r.Some? ==> forall q :: p <= q < r.value ==> MatchAt(pat, s, q).None?
    decreases |s| - p
  {
    if MatchAt(pat, s, p).Some? then Some(p)
    else if p == |s| then None
    else Search(pat, s, p + 1)
  }

  /** `path.match(re)`, as its capture groups. */
  function Match(pat: Pattern, s: string): (caps: Option<seq<string>>)
    ensures caps.Some? ==> |caps.value| == Groups(pat)
    ensures caps.Some? ==> forall k :: 0 <= k < |caps.value| ==> IsSegment(caps.value[k])
  {
    var r := Search(pat, s, 0);
    if r.Some? then MatchAt(pat, s, r.value) else None
  }

  /** Names under `/christmas-bingo/` that are pages, not groups. */
  predicate NotAGroup(name: string) {
    name == "index.html" || name == "register.html" || name == "register"
  }

  /** `getGroupNameFromURL` of the group page. */
  function GroupNameFromUrl(redirect: Option<string>, pathname: string): (name: Option<string>)
    ensures var m := Match(GroupPattern, EffectivePath(redirect, pathname));
      name.Some? <==> m.Some? && !NotAGroup(m.value[0])
    ensures name.Some? ==> name == Some(Match(GroupPattern, EffectivePath(redirect, pathname)).value[0])
    ensures name.Some? ==> IsSegment(name.value) && !NotAGroup(name.value)
  {
    var m := Match(GroupPattern, EffectivePath(redirect, pathname));
    if m.Some? && !NotAGroup(m.value[0]) then Some(m.value[0]) else None
  }

  /** `getGroupNameFromURL` of the admin page. */
  function AdminGroupFromUrl(redirect: Option<string>, pathname: string): (name: Option<string>)
    ensures name.Some? ==> IsSegment(name.value)
    ensures name.Some? <==> Match(AdminPattern, EffectivePath(redirect, pathname)).Some?
  {
    var m := Match(AdminPattern, EffectivePath(redirect, pathname));
    if m.Some? then Some(m.value[0]) else None
  }

  datatype PathInfo = PathInfo(groupName: string, username: string)

  /** `getPathInfo` of the view page (`page == "view"`) and of the edit page
      (`page == "edit"`). The captures are returned undecoded. */
  function PathInfoFromUrl(page: string, redirect: Option<string>, pathname: string): (info: Option<PathInfo>)
    ensures info.Some? ==> IsSegment(info.value.groupName) && IsSegment(info.value.username)
    ensures info.Some? <==> Match(PagePattern(page), EffectivePath(redirect, pathname)).Some?
  {
    var m := Match(PagePattern(page), EffectivePath(redirect, pathname));
    if m.Some? then Some(PathInfo(m.value[0], m.value[1])) else None
  }

  /** The links the pages build, `/christmas-bingo/<group>/`,
      `/christmas-bingo/<group>/admin/` and
      `/christmas-bingo/<group>/<username>/<page>/`. */
  function GroupPath(group: string): string {
    Prefix + (group + ['/'])
  }

  function AdminPath(group: string): string {
    Prefix + (group + "/admin/")
  }

  function PagePath(group: string, username: string, page: string): string {
    Prefix + (group + (['/'] + (username + (['/'] + (page + ['/'])))))
  }

  /** A run, a segment, a literal and a page tail at position `|a| + i` of
      `a + t` are those at position `i` of `t`. */
  lemma {:induction false} RunShift(a: string, t: string, i: nat)
    requires i <= |t|
    ensures Run(a + t, |a| + i) == Run(t, i)
    decreases |t| - i
  {
    if i < |t| {
      assert (a + t)[|a| + i] == t[i];
      RunShift(a, t, i + 1);
    }
  }

  lemma SegmentAtShift(a: string, t: string, i: nat)
    requires i <= |t|
    ensures SegmentAt(a + t, |a| + i) == SegmentAt(t, i)
  {
    RunShift(a, t, i);
    var n := Run(t, i);
    assert (a + t)[|a| + i..|a| + i + n] == t[i..i + n];
  }

  lemma AtShift(a: string, t: string, i: nat, lit: string)
    ensures At(a + t, |a| + i, lit) <==> At(t, i, lit)
  {
    if i + |lit| <= |t| {
      assert (a + t)[|a| + i..|a| + i + |lit|] == t[i..i + |lit|];
    }
  }

  lemma PageTailShift(a: string, t: string, e: nat, page: string)
    requires e <= |t|
    ensures PageTail(a + t, |a| + e, page) == PageTail(t, e, page)
  {
    if e < |t| {
      assert (a + t)[|a| + e] == t[e];
      SegmentAtShift(a, t, e + 1);
      var u := SegmentAt(t, e + 1);
      if u.Some? {
        AtShift(a, t, e + 1 + |u.value|, ['/'] + page);
      }
    }
  }

  /** A segment at the start of a string, ended by a slash or the end. */
  lemma SegmentAtStart(w: string, post: string)
    requires IsSegment(w)
    requires post == [] || post[0] == '/'
    ensures SegmentAt(w + post, 0) == Some(w)
  {
    RunOfSegment([], w, post);
    assert [] + w + post == w + post;
    assert (w + post)[0..|w|] == w;
  }

  lemma PrefixAtStart(rest: string)
    ensures At(Prefix + rest, 0, Prefix)
  {
    assert (Prefix + rest)[..|Prefix|] == Prefix;
  }

  /** A run of non-slash characters followed by a slash or the end. */
  lemma {:induction false} RunOfSegment(pre: string, w: string, post: string)
    requires '/' !in w
    requires post == [] || post[0] == '/'
    ensures Run(pre + w + post, |pre|) == |w|
    decreases |w|
  {
    if w != [] {
      assert pre + w + post == (pre + [w[0]]) + w[1..] + post;
      RunOfSegment(pre + [w[0]], w[1..], post);
    }
  }

  /** The first segment of `/christmas-bingo/<group>...`. */
  lemma FirstSegment(group: string, rest: string)
    requires IsSegment(group)
    requires rest == [] || rest[0] == '/'
    ensures At(Prefix + (group + rest), 0, Prefix)
    ensures SegmentAt(Prefix + (group + rest), |Prefix|) == Some(group)
  {
    PrefixAtStart(group + rest);
    SegmentAtShift(Prefix, group + rest, 0);
    SegmentAtStart(group, rest);
  }

  /** The pattern tried at the start of one of the page's own links. */
  lemma LinkMatchesAtStart(pat: Pattern, s: string)
    requires MatchAt(pat, s, 0).Some?
    ensures Match(pat, s) == MatchAt(pat, s, 0)
  {
  }

  /** The group pattern at the start of `/christmas-bingo/<group>` and of
      anything after it that starts with a slash. */
  lemma GroupMatchOfLink(group: string, rest: string)
    requires IsSegment(group)
    requires rest == [] || rest[0] == '/'
    ensures Match(GroupPattern, Prefix + (group + rest)) == Some([group])
  {
    FirstSegment(group, rest);
    LinkMatchesAtStart(GroupPattern, Prefix + (group + rest));
  }

  /** The group page reads back the group of its own link, and a redirect
      parameter wins over the pathname. */
  lemma GroupPathRoundTrip(group: string, pathname: string)
    requires IsSegment(group) && !NotAGroup(group)
    ensures GroupNameFromUrl(Some(GroupPath(group)), pathname) == Some(group)
  {
    GroupMatchOfLink(group, ['/']);
  }

  /** The registration pages sit under the same prefix and are not groups. */
  lemma PagesAreNotGroups(name: string, rest: string)
    requires NotAGroup(name)
    requires rest == [] || rest[0] == '/'
    ensures GroupNameFromUrl(None, Prefix + (name + rest)).None?
  {
    GroupMatchOfLink(name, rest);
  }

  /** The admin page reads back the group of the link from the leaderboard. */
  lemma AdminPathRoundTrip(group: string)
    requires IsSegment(group)
    ensures AdminGroupFromUrl(None, AdminPath(group)) == Some(group)
  {
    var s := AdminPath(group);
    FirstSegment(group, "/admin/");
    AtShift(Prefix, group + "/admin/", |group|, "/admin");
    AtShift(group, "/admin/", 0, "/admin");
    assert "/admin/"[0..6] == "/admin";
    LinkMatchesAtStart(AdminPattern, s);
  }

  /** The second capture and the page name after the first segment. */
  lemma PageTailOfLink(username: string, page: string, extra: string)
    requires IsSegment(username)
    ensures PageTail(['/'] + (username + (['/'] + ((page + extra) + ['/']))), 0, page) == Some(username)
  {
    var r2 := ['/'] + ((page + extra) + ['/']);
    var r1 := ['/'] + (username + r2);
    SegmentAtShift(['/'], username + r2, 0);
    SegmentAtStart(username, r2);
    AtShift(['/'], username + r2, |username|, ['/'] + page);
    AtShift(username, r2, 0, ['/'] + page);
    assert r2[0..1 + |page|] == ['/'] + page;
  }

  /** The view and edit pages read back the group and user of their links;
      the pattern is unanchored, so a last segment that merely starts with
      the page name (`/christmas-bingo/g/u/viewer/`) is read the same way. */
  lemma PageLinkRoundTrip(group: string, username: string, page: string, extra: string)
    requires IsSegment(group) && IsSegment(username)
    ensures PathInfoFromUrl(page, None, PagePath(group, username, page + extra))
         == Some(PathInfo(group, username))
  {
    var r1 := ['/'] + (username + (['/'] + ((page + extra) + ['/'])));
    var s := PagePath(group, username, page + extra);
    FirstSegment(group, r1);
    PageTailShift(Prefix, group + r1, |group|, page);
    PageTailShift(group, r1, 0, page);
    PageTailOfLink(username, page, extra);
    LinkMatchesAtStart(PagePattern(page), s);
  }

  lemma PagePathRoundTrip(group: string, username: string, page: string)
    requires IsSegment(group) && IsSegment(username)
    ensures PathInfoFromUrl(page, None, PagePath(group, username, page)) == Some(PathInfo(group, username))
  {
    PageLinkRoundTrip(group, username, page, []);
    assert page + [] == page;
  }
}
