/** The article record shared by every view (src/app/App.tsx). */
module App {

  /** One blog article. `slug` is a stored field that nothing looks articles up by;
      lookups recompute a slug from `title` (see module Slug). */
  datatype BlogPost = BlogPost(
    id: int,
    title: string,
    excerpt: string,
    content: string,
    author: string,
    date: string,
    readTime: string,
    category: string,
    imageUrl: string,
    tags: seq<string>,
    slug: string
  )
}
