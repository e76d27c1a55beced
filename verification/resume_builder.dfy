/** The resume builder's single-section export: HTML escaping of user text,
    the per-section markup, and the guard that only prints known sections. */
module ResumeBuilder {
  import opened Options
  import opened Strings
  import opened Records

  /** `s.replace(/c/g, rep)` for a single character `c`. */
  function ReplaceAll(s: string, c: char, rep: string): string {
    if |s| == 0 then "" else (if s[0] == c then rep else [s[0]]) + ReplaceAll(s[1..], c, rep)
  }

  /** `escapeHtml`: the five replacements in the source's order, ampersand first. */
  function EscapeHtml(s: string): (r: string)
    ensures r == EscapeEach(s)
    ensures '<' !in r && '>' !in r && '"' !in r && '\'' !in r
  {
    EscapeIsPerChar(s);
    EscapeEachSafe(s);
    Passes(s)
  }

  /** The entity each special character becomes; other characters stay. */
  function EscapeChar(c: char): string {
    match c
    case '&' => "&amp;"
    case '<' => "&lt;"
    case '>' => "&gt;"
    case '"' => "&quot;"
    case '\'' => "&#039;"
    case _ => [c]
  }

  predicate IsSpecial(c: char) {
    c == '&' || c == '<' || c == '>' || c == '"' || c == '\''
  }

  /** Reference definition: escape character by character. */
  function EscapeEach(s: string): string {
    if |s| == 0 then "" else EscapeChar(s[0]) + EscapeEach(s[1..])
  }

  /** The reference escape leaves none of the four markup characters. */
  lemma {:induction false} EscapeEachSafe(s: string)
    ensures var r := EscapeEach(s); '<' !in r && '>' !in r && '"' !in r && '\'' !in r
  {
    if |s| > 0 {
      EscapeCharSafe(s[0]);
      EscapeEachSafe(s[1..]);
    }
  }

  lemma EscapeCharSafe(c: char)
    ensures '<' !in EscapeChar(c) && '>' !in EscapeChar(c) && '"' !in EscapeChar(c) && '\'' !in EscapeChar(c)
  {
  }

  lemma {:induction false} ReplaceAllConcat(a: string, b: string, c: char, rep: string)
    ensures ReplaceAll(a + b, c, rep) == ReplaceAll(a, c, rep) + ReplaceAll(b, c, rep)
  {
    if |a| > 0 {
      ReplaceAllConcat(a[1..], b, c, rep);
      assert (a + b)[1..] == a[1..] + b;
    } else {
      assert a + b == b;
    }
  }

  lemma {:induction false} ReplaceAllAbsent(s: string, c: char, rep: string)
    requires c !in s
    ensures ReplaceAll(s, c, rep) == s
  {
    if |s| > 0 {
      ReplaceAllAbsent(s[1..], c, rep);
    }
  }

  /** The five passes applied to one character give its entity: the later
      passes never meet a character the earlier ones produced. */
  lemma EscapeOne(c: char)
    ensures Passes([c]) == EscapeChar(c)
  {
    if c == '&' {
      PassesFrom([c], 0, "&amp;");
    } else if c == '<' {
      PassesFrom([c], 1, "&lt;");
    } else if c == '>' {
      PassesFrom([c], 2, "&gt;");
    } else if c == '"' {
      PassesFrom([c], 3, "&quot;");
    } else if c == '\'' {
      PassesFrom([c], 4, "&#039;");
    } else {
      ReplaceAllAbsent([c], '&', "&amp;");
      ReplaceAllAbsent([c], '<', "&lt;");
      ReplaceAllAbsent([c], '>', "&gt;");
      ReplaceAllAbsent([c], '"', "&quot;");
      ReplaceAllAbsent([c], '\'', "&#039;");
    }
  }

  /** The five passes of `escapeHtml`, in order. */
  function Passes(s: string): string {
    ReplaceAll(ReplaceAll(ReplaceAll(ReplaceAll(ReplaceAll(s, '&', "&amp;"), '<', "&lt;"), '>', "&gt;"), '"', "&quot;"), '\'', "&#039;")
  }

  const Specials: seq<char> := ['&', '<', '>', '"', '\'']
  const Entities: seq<string> := ["&amp;", "&lt;", "&gt;", "&quot;", "&#039;"]

  /** Pass `k` of the five turns the lone special character into its entity;
      the passes before it do not see that character, the passes after it do
      not see any character of the entity. */
  function Pass(s: string, k: nat): string
    requires k < 5
  {
    ReplaceAll(s, Specials[k], Entities[k])
  }

  lemma PassesFrom(s: string, k: nat, e: string)
    requires k < 5 && s == [Specials[k]] && e == Entities[k]
    ensures Passes(s) == e
  {
    assert Passes(s) == Pass(Pass(Pass(Pass(Pass(s, 0), 1), 2), 3), 4);
    assert Passes(s) == PassUpTo(s, 5) by {
      assert PassUpTo(s, 1) == Pass(s, 0);
      assert PassUpTo(s, 2) == Pass(PassUpTo(s, 1), 1);
      assert PassUpTo(s, 3) == Pass(PassUpTo(s, 2), 2);
      assert PassUpTo(s, 4) == Pass(PassUpTo(s, 3), 3);
    }
    var t := s;
    var i := 0;
    while i < 5
      invariant 0 <= i <= 5
      invariant t == (if i <= k then s else e)
      invariant t == PassUpTo(s, i)
    {
      if i == k {
        ReplaceAllAbsentOr(t, Specials[i], Entities[i]);
      } else {
        if i < k {
          assert t == [Specials[k]] && Specials[i] != Specials[k];
        } else {
          EntityFree(k, i);
        }
        ReplaceAllAbsent(t, Specials[i], Entities[i]);
      }
      t := Pass(t, i);
      i := i + 1;
    }
  }

  /** The passes after pass `k` find nothing to replace in its entity. */
  lemma EntityFree(k: nat, i: nat)
    requires k < i < 5
    ensures Specials[i] !in Entities[k]
  {
  }

  /** The first `i` passes. */
  function PassUpTo(s: string, i: nat): string
    requires i <= 5
  {
    if i == 0 then s else Pass(PassUpTo(s, i - 1), i - 1)
  }

  /** A one-character string is replaced wholesale or kept; a longer one
      without the character is kept. */
  lemma ReplaceAllAbsentOr(s: string, c: char, rep: string)
    ensures |s| == 1 && s[0] == c ==> ReplaceAll(s, c, rep) == rep
    ensures c !in s ==> ReplaceAll(s, c, rep) == s
  {
    if c !in s {
      ReplaceAllAbsent(s, c, rep);
    }
    if |s| == 1 && s[0] == c {
      assert ReplaceAll(s, c, rep) == rep + ReplaceAll(s[1..], c, rep);
    }
  }

  /** `escapeHtml` acts character by character. */
  lemma {:induction false} EscapeIsPerChar(s: string)
    ensures Passes(s) == EscapeEach(s)
  {
    if |s| > 0 {
      EscapeIsPerChar(s[1..]);
      EscapeOne(s[0]);
      var a, b := [s[0]], s[1..];
      assert s == a + b;
      ReplaceAllConcat(a, b, '&', "&amp;");
      var a1, b1 := ReplaceAll(a, '&', "&amp;"), ReplaceAll(b, '&', "&amp;");
      ReplaceAllConcat(a1, b1, '<', "&lt;");
      var a2, b2 := ReplaceAll(a1, '<', "&lt;"), ReplaceAll(b1, '<', "&lt;");
      ReplaceAllConcat(a2, b2, '>', "&gt;");
      var a3, b3 := ReplaceAll(a2, '>', "&gt;"), ReplaceAll(b2, '>', "&gt;");
      ReplaceAllConcat(a3, b3, '"', "&quot;");
      var a4, b4 := ReplaceAll(a3, '"', "&quot;"), ReplaceAll(b3, '"', "&quot;");
      ReplaceAllConcat(a4, b4, '\'', "&#039;");
    }
  }

  /** Escaping distributes over concatenation. */
  lemma EscapeConcat(a: string, b: string)
    ensures EscapeHtml(a + b) == EscapeHtml(a) + EscapeHtml(b)
  {
    EscapeEachConcat(a, b);
  }

  lemma {:induction false} EscapeEachConcat(a: string, b: string)
    ensures EscapeEach(a + b) == EscapeEach(a) + EscapeEach(b)
  {
    if |a| > 0 {
      var x, t := a[0], a[1..];
      var head, et, eb := EscapeChar(x), EscapeEach(t), EscapeEach(b);
      assert EscapeEach(a + b) == head + EscapeEach(t + b) by {
        assert a + b == [x] + (t + b);
        EscapeEachCons(x, t + b);
      }
      assert EscapeEach(a) == head + et by {
        assert a == [x] + t;
        EscapeEachCons(x, t);
      }
      EscapeEachConcat(t, b);
      assert head + (et + eb) == (head + et) + eb;
    } else {
      assert a + b == b;
    }
  }

  lemma EscapeEachCons(c: char, t: string)
    ensures EscapeEach([c] + t) == EscapeChar(c) + EscapeEach(t)
  {
    assert ([c] + t)[1..] == t;
  }

  /** Text without special characters is left as it is. */
  lemma EscapePlain(s: string)
    requires forall i :: 0 <= i < |s| ==> !IsSpecial(s[i])
    ensures EscapeHtml(s) == s
  {
    EscapeEachPlain(s);
  }

  lemma {:induction false} EscapeEachPlain(s: string)
    requires forall i :: 0 <= i < |s| ==> !IsSpecial(s[i])
    ensures EscapeEach(s) == s
  {
    if |s| > 0 {
      EscapeEachPlain(s[1..]);
      assert s == [s[0]] + s[1..];
    }
  }

  /** The five entities `escapeHtml` produces. */
  predicate EntityAt(t: string, i: nat)
    requires i <= |t|
  {
    var u := t[i..];
    StartsWith(u, "&amp;") || StartsWith(u, "&lt;") || StartsWith(u, "&gt;") || StartsWith(u, "&quot;") || StartsWith(u, "&#039;")
  }

  /** Every ampersand opens one of the five entities. */
  predicate AmpersandsOpenEntities(t: string) {
    forall i :: 0 <= i < |t| && t[i] == '&' ==> EntityAt(t, i)
  }

  lemma AmpersandsConcat(a: string, b: string)
    requires AmpersandsOpenEntities(a) && AmpersandsOpenEntities(b)
    ensures AmpersandsOpenEntities(a + b)
  {
    var t := a + b;
    forall i | 0 <= i < |t| && t[i] == '&' ensures EntityAt(t, i) {
      if i < |a| {
        assert a[i] == '&';
        assert EntityAt(a, i);
        assert t[i..] == a[i..] + b;
      } else {
        assert b[i - |a|] == '&';
        assert EntityAt(b, i - |a|);
        assert t[i..] == b[i - |a|..];
      }
    }
  }

  /** Every `&` in escaped text starts `&amp;`, `&lt;`, `&gt;`, `&quot;` or
      `&#039;`: nothing is escaped twice and no raw ampersand survives. */
  lemma EscapedAmpersands(s: string)
    ensures AmpersandsOpenEntities(EscapeHtml(s))
  {
    EachAmpersands(s);
  }

  lemma {:induction false} EachAmpersands(s: string)
    ensures AmpersandsOpenEntities(EscapeEach(s))
  {
    if |s| > 0 {
      EachAmpersands(s[1..]);
      var e := EscapeChar(s[0]);
      assert AmpersandsOpenEntities(e) by {
        if IsSpecial(s[0]) {
          assert e[0] == '&' && EntityAt(e, 0);
          assert forall i :: 0 < i < |e| ==> e[i] != '&';
        }
      }
      AmpersandsConcat(e, EscapeEach(s[1..]));
    }
  }

  /** Decoding of the five entities, left to right. */
  function Unescape(t: string): string
    decreases |t|
  {
    if |t| == 0 then ""
    else if StartsWith(t, "&amp;") then "&" + Unescape(t[5..])
    else if StartsWith(t, "&lt;") then "<" + Unescape(t[4..])
    else if StartsWith(t, "&gt;") then ">" + Unescape(t[4..])
    else if StartsWith(t, "&quot;") then "\"" + Unescape(t[6..])
    else if StartsWith(t, "&#039;") then "'" + Unescape(t[6..])
    else [t[0]] + Unescape(t[1..])
  }

  /** Escaping loses nothing: decoding the entities gives back the text. */
  lemma UnescapeEscape(s: string)
    ensures Unescape(EscapeHtml(s)) == s
  {
    UnescapeEach(s);
  }

  lemma {:induction false} UnescapeEach(s: string)
    ensures Unescape(EscapeEach(s)) == s
  {
    if |s| > 0 {
      UnescapeEach(s[1..]);
      var rest := EscapeEach(s[1..]);
      UnescapeChar(s[0], rest);
      assert s == [s[0]] + s[1..];
    }
  }

  /** Decoding reads one escaped character back off the front. */
  lemma UnescapeChar(c: char, rest: string)
    ensures Unescape(EscapeChar(c) + rest) == [c] + Unescape(rest)
  {
    var t := EscapeChar(c) + rest;
    if c == '&' {
      UnescapeEntity(rest, "&amp;");
    } else if c == '<' {
      UnescapeEntity(rest, "&lt;");
    } else if c == '>' {
      UnescapeEntity(rest, "&gt;");
    } else if c == '"' {
      UnescapeEntity(rest, "&quot;");
    } else if c == '\'' {
      UnescapeEntity(rest, "&#039;");
    } else {
      assert t[0] == c && t[1..] == rest;
      assert !StartsWith(t, "&amp;") && !StartsWith(t, "&lt;") && !StartsWith(t, "&gt;");
      assert !StartsWith(t, "&quot;") && !StartsWith(t, "&#039;");
    }
  }

  /** Decoding one entity in front of `rest`. */
  lemma UnescapeEntity(rest: string, e: string)
    requires e in ["&amp;", "&lt;", "&gt;", "&quot;", "&#039;"]
    ensures Unescape(e + rest) == [DecodeEntity(e)] + Unescape(rest)
  {
    var t := e + rest;
    assert t[..|e|] == e;
    assert t[|e|..] == rest;
    assert t[1] == e[1];
    if e != "&amp;" {
      assert |t| >= 5 ==> t[..5][1] == t[1];
    }
    if e != "&amp;" && e != "&lt;" {
      assert |t| >= 4 ==> t[..4][1] == t[1];
    }
    if e != "&amp;" && e != "&lt;" && e != "&gt;" {
      assert |t| >= 4 ==> t[..4][1] == t[1];
    }
    if e == "&#039;" {
      assert |t| >= 6 ==> t[..6][1] == t[1];
    }
  }

  /** The character an entity stands for. */
  function DecodeEntity(e: string): char {
    if e == "&amp;" then '&'
    else if e == "&lt;" then '<'
    else if e == "&gt;" then '>'
    else if e == "&quot;" then '"'
    else '\''
  }

  // Markup of the export, as the template literals write it.
  const WrapOpen: string := "<div class=\"p-8 font-[Merriweather]\">"
  const WrapClose: string := "</div>"
  const HeaderOpen: string := "<h2 class=\"text-2xl font-bold border-b-2 border-black pb-2 mb-4\">"
  const HeaderClose: string := "</h2>"

  function ExperienceBlock(e: Experience): string {
    "\n                <div>\n                    <div class=\"flex justify-between items-baseline mb-1\">\n                      <h4 class=\"font-bold text-lg\">"
    + EscapeHtml(e.company)
    + "</h4>\n                      <span class=\"text-sm italic\">"
    + EscapeHtml(e.startDate)
    + " \U{2013} "
    + EscapeHtml(e.endDate)
    + "</span>\n                    </div>\n                    <div class=\"font-semibold text-slate-700 mb-1\">"
    + EscapeHtml(e.role)
    + "</div>\n                    <p class=\"text-slate-800 text-sm leading-relaxed whitespace-pre-line\">"
    + EscapeHtml(e.description)
    + "</p>\n                </div>\n            "
  }

  function EducationBlock(e: Education): string {
    "\n                <div class=\"mb-3\">\n                  <div class=\"font-bold\">"
    + EscapeHtml(e.school)
    + "</div>\n                  <div>"
    + EscapeHtml(e.degree)
    + "</div>\n                  <div class=\"text-sm text-slate-600 italic\">"
    + EscapeHtml(e.year)
    + "</div>\n                </div>\n            "
  }

  /** `experience.map(block).join('')` */
  function ExperienceBlocks(xs: seq<Experience>): string {
    if |xs| == 0 then "" else ExperienceBlock(xs[0]) + ExperienceBlocks(xs[1..])
  }

  /** `education.map(block).join('')` */
  function EducationBlocks(xs: seq<Education>): string {
    if |xs| == 0 then "" else EducationBlock(xs[0]) + EducationBlocks(xs[1..])
  }

  predicate IsExportable(name: string) {
    name == "Summary" || name == "Experience" || name == "Education"
  }

  /** `generateSectionHtml`: the wrapped header and body for the three known
      sections, and the empty string for any other name. */
  function SectionHtml(name: string, data: FormValue): (r: string)
    ensures r == "" <==> !IsExportable(name)
    ensures IsExportable(name) ==> StartsWith(r, WrapOpen) && |r| >= |WrapClose| && r[|r| - |WrapClose|..] == WrapClose
  {
    if !IsExportable(name) then ""
    else Wrap(name, SectionBody(name, data))
  }

  /** The section body below the header. */
  function SectionBody(name: string, data: FormValue): string {
    if name == "Summary" then "<p>" + EscapeHtml(data.summary) + "</p>"
    else if name == "Experience" then "<div class=\"space-y-5\">" + ExperienceBlocks(data.experience) + "</div>"
    else EducationBlocks(data.education)
  }

  /** The outer wrapper around the header and the body. */
  function Wrap(name: string, content: string): (r: string)
    ensures StartsWith(r, WrapOpen) && |r| >= |WrapClose| && r[|r| - |WrapClose|..] == WrapClose
  {
    var rest := HeaderOpen + EscapeHtml(name) + HeaderClose + content;
    var r := WrapOpen + rest + WrapClose;
    assert r[..|WrapOpen|] == WrapOpen;
    assert r[|r| - |WrapClose|..] == WrapClose;
    r
  }

  /** The summary can be read back from its exported markup: between the
      header with the opening paragraph tag and the closing tags lies text
      that unescapes to the summary. */
  lemma SummaryReadBack(data: FormValue)
    ensures var html := SectionHtml("Summary", data);
      var front := WrapOpen + HeaderOpen + "Summary" + HeaderClose + "<p>";
      var back := "</p>" + WrapClose;
      && |front| + |back| <= |html|
      && html[..|front|] == front
      && html[|html| - |back|..] == back
      && Unescape(html[|front|..|html| - |back|]) == data.summary
  {
    var body := EscapeHtml(data.summary);
    var front := WrapOpen + HeaderOpen + "Summary" + HeaderClose + "<p>";
    var back := "</p>" + WrapClose;
    EscapePlain("Summary");
    UnescapeEscape(data.summary);
    SummaryParts(body, EscapeHtml("Summary"));
    Middle(front, body, back);
  }

  lemma SummaryParts(body: string, title: string)
    requires title == "Summary"
    ensures WrapOpen + (HeaderOpen + title + HeaderClose + ("<p>" + body + "</p>")) + WrapClose
      == (WrapOpen + HeaderOpen + "Summary" + HeaderClose + "<p>") + body + ("</p>" + WrapClose)
  {
  }

  /** The middle of three concatenated strings, recovered by slicing. */
  lemma Middle(front: string, body: string, back: string)
    ensures var s := front + body + back;
      && s[..|front|] == front
      && s[|s| - |back|..] == back
      && s[|front|..|s| - |back|] == body
  {
  }

  /** What `exportSection` hands to the printer: the markup and a title. */
  datatype PrintJob = PrintJob(content: string, title: string)

  /** `exportSection`: print the section's markup, or nothing (only a log
      line) when the markup is empty. */
  function ExportSection(name: string, data: FormValue): (r: Option<PrintJob>)
    ensures r.None? <==> !IsExportable(name)
    ensures r.Some? ==> r.value.title == name + " - Export" && r.value.content != ""
    ensures r.Some? ==> r.value.content == SectionHtml(name, data)
  {
    var html := SectionHtml(name, data);
    if html != "" then Some(PrintJob(html, name + " - Export")) else None
  }
}
