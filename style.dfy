/** The two inline-style rules the HTML preparation applies: an embedded
    image gets `display:block;` and a table gets `border-spacing:0;`, each
    only when the style does not already set that property, joined to the
    existing style by a `;` when the style does not already end with one. */
module Styles {
  import opened Common

  /** The rule shared by both: keep a style that mentions `probe`, else append `decl`,
      inserting a separating `;` unless the style already ends with one. */
  function AppendStyle(style: string, probe: string, decl: string): string
  {
    if Contains(style, probe) then style
    else style + (if EndsWith(style, ";") then "" else ";") + decl
  }

  /** The rule for an `<img>` that refers to an attachment by `cid:`. */
  function ImgStyle(style: string): string
  {
    AppendStyle(style, "display:", "display:block;")
  }

  /** The rule for every `<table>`. */
  function TableStyle(style: string): string
  {
    AppendStyle(style, "border-spacing:", "border-spacing:0;")
  }

  /** After the rule, the style mentions the property; a style that already did is untouched,
      and any other has the declaration appended after the old text. */
  lemma AppendStyleSets(style: string, probe: string, decl: string)
    requires Contains(decl, probe)
    ensures Contains(AppendStyle(style, probe, decl), probe)
    ensures Contains(style, probe) ==> AppendStyle(style, probe, decl) == style
    ensures !Contains(style, probe) ==>
      AppendStyle(style, probe, decl) == style + (if EndsWith(style, ";") then "" else ";") + decl
    ensures style <= AppendStyle(style, probe, decl)
  {
    if !Contains(style, probe) {
      ContainsInSuffix(style + (if EndsWith(style, ";") then "" else ";"), decl, probe);
    }
  }

  /** Applying a rule twice is the same as applying it once. */
  lemma AppendStyleIdempotent(style: string, probe: string, decl: string)
    requires Contains(decl, probe)
    ensures AppendStyle(AppendStyle(style, probe, decl), probe, decl) == AppendStyle(style, probe, decl)
  {
    AppendStyleSets(style, probe, decl);
  }

  /** A rule's outcomes, independent of the property: it always ends up mentioning the
      property, is idempotent, keeps a style that mentions it, and otherwise appends the
      declaration, with a `;` in between unless the style already ends with one. */
  lemma AppendStyleRule(style: string, probe: string, decl: string, sep: string)
    requires Contains(decl, probe) && sep == ";" + decl
    ensures Contains(AppendStyle(style, probe, decl), probe)
    ensures AppendStyle(AppendStyle(style, probe, decl), probe, decl) == AppendStyle(style, probe, decl)
    ensures Contains(style, probe) ==> AppendStyle(style, probe, decl) == style
    ensures !Contains(style, probe) && EndsWith(style, ";") ==> AppendStyle(style, probe, decl) == style + decl
    ensures !Contains(style, probe) && !EndsWith(style, ";") ==> AppendStyle(style, probe, decl) == style + sep
  {
    AppendStyleSets(style, probe, decl);
    AppendStyleIdempotent(style, probe, decl);
    if !Contains(style, probe) {
      if EndsWith(style, ";") {
        assert style + "" + decl == style + decl;
      } else {
        assert style + ";" + decl == style + sep;
      }
    }
  }

  /** The image rule: always ends up with `display:`, idempotent, and a style without a
      display property gets `display:block;` after a separating `;` (so the empty style
      becomes `;display:block;`, see ImgStyleEmpty). */
  lemma ImgStyleRule(style: string)
    ensures Contains(ImgStyle(style), "display:")
    ensures ImgStyle(ImgStyle(style)) == ImgStyle(style)
    ensures Contains(style, "display:") ==> ImgStyle(style) == style
    ensures !Contains(style, "display:") && EndsWith(style, ";") ==> ImgStyle(style) == style + "display:block;"
    ensures !Contains(style, "display:") && !EndsWith(style, ";") ==> ImgStyle(style) == style + ";display:block;"
  {
    assert "display:" <= "display:block;";
    assert ";display:block;" == ";" + "display:block;";
    AppendStyleRule(style, "display:", "display:block;", ";display:block;");
  }

  /** An image without a style gets `;display:block;`, with the leading separator. */
  lemma ImgStyleEmpty()
    ensures ImgStyle("") == ";display:block;"
  {
    assert !Contains("", "display:");
    assert !EndsWith("", ";");
  }

  /** The table rule: always ends up with `border-spacing:`, idempotent, and a style without
      it gets `border-spacing:0;` after a separating `;`. */
  lemma TableStyleRule(style: string)
    ensures Contains(TableStyle(style), "border-spacing:")
    ensures TableStyle(TableStyle(style)) == TableStyle(style)
    ensures Contains(style, "border-spacing:") ==> TableStyle(style) == style
    ensures !Contains(style, "border-spacing:") && EndsWith(style, ";") ==> TableStyle(style) == style + "border-spacing:0;"
    ensures !Contains(style, "border-spacing:") && !EndsWith(style, ";") ==> TableStyle(style) == style + ";border-spacing:0;"
  {
    assert "border-spacing:" <= "border-spacing:0;";
    assert ";border-spacing:0;" == ";" + "border-spacing:0;";
    AppendStyleRule(style, "border-spacing:", "border-spacing:0;", ";border-spacing:0;");
  }
}
