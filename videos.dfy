/** The stored video record; `originalTitle`, `collections` and `tags` are optional fields. */
module Videos {
  import opened Wrappers

  datatype Video = Video(
    id: string,
    title: string,
    originalTitle: Option<string>,
    thumbnail: string,
    publishedAt: string,
    link: string,
    collections: Option<seq<string>>,
    tags: Option<seq<string>>)
  {
    /** Every optional field is present, as on every record the playlist fetch builds. */
    predicate Complete() {
      originalTitle.Some? && collections.Some? && tags.Some?
    }
  }
}
