/** The HTML void elements (section 13.1.2 of the HTML Living Standard, with `param` kept): the
    elements that have no content and no end tag. Every part of both engines uses this list. */
module VoidElements {
  const Names: set<string> :=
    {"area", "base", "br", "col", "embed", "hr", "img", "input", "link", "meta", "param", "source",
     "track", "wbr"}

}
