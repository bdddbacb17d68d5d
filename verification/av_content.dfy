/** The audio-visual content record produced by the playlist parser and kept
    by the content store. */
module AvContentModel {
  import opened Wrappers
  import opened JavaInt

  /** An immutable content: every string may be `null` (`None`), the id is
      a Java `int`. There are no setters, so a value never changes after
      construction. */
  datatype AvContent = AvContent(
    title: Option<string>,
    logo: Option<string>,
    group: Option<string>,
    category: Option<string>,
    link: Option<string>,
    id: Int32)

  /** The no-argument constructor: every string unset and id 0. */
  function Blank(): (c: AvContent)
    ensures c.title.None? && c.logo.None? && c.group.None?
    ensures c.category.None? && c.link.None?
    ensures c.id == 0
  {
    AvContent(None, None, None, None, None, 0)
  }

  /** The six-argument constructor; note that the category argument comes
      before the link. */
  function Make(title: Option<string>, logo: Option<string>, group: Option<string>,
                category: Option<string>, link: Option<string>, id: Int32): (c: AvContent)
    ensures c.category == category && c.link == link
    ensures c.title == title && c.logo == logo && c.group == group && c.id == id
  {
    AvContent(title, logo, group, category, link, id)
  }

  /** The five-argument constructor: the id keeps its default, 0. */
  function MakeWithoutId(title: Option<string>, logo: Option<string>, group: Option<string>,
                         category: Option<string>, link: Option<string>): (c: AvContent)
    ensures c.id == 0
    ensures c == Make(title, logo, group, category, link, 0)
  {
    AvContent(title, logo, group, category, link, 0)
  }
}
