/** The records the list endpoints read from the store, shaped after the
    types in src/lib/types. Dates are milliseconds since the epoch. */
module Records {
  import opened Options

  /** A JavaScript property that may be missing (`undefined`), `null`, or set. */
  datatype Field<+T> = Undefined | Null | Value(value: T)

  datatype Tag = Tag(id: int, name: string, iconUrl: Option<string>)

  datatype Experience = Experience(
    id: int,
    title: string,
    company: string,
    role: string,
    location: string,
    content: string,
    highlights: seq<string>,
    startDate: int,
    endDate: Option<int>,
    isHidden: bool,
    tags: seq<Tag>)

  datatype Project = Project(
    id: int,
    title: string,
    subtitle: string,
    description: string,
    imageUrl: string,
    thumbnailUrl: Field<string>,
    images: Field<seq<string>>,
    githubUrl: Option<string>,
    liveUrl: Option<string>,
    featured: bool,
    order: int,
    tags: seq<Tag>)

  datatype Blog = Blog(
    id: int,
    title: string,
    slug: string,
    description: string,
    content: string,
    excerpt: Option<string>,
    imageUrl: Field<string>,
    images: Field<seq<string>>,
    published: bool,
    publishedAt: Option<int>,
    readingTime: Option<int>,
    views: int,
    tags: seq<Tag>)

  /** `xs.map(f)`: one result per element, in order. */
  function MapSeq<A, B>(f: A -> B, xs: seq<A>): (ys: seq<B>)
    ensures |ys| == |xs|
    ensures forall i :: 0 <= i < |xs| ==> ys[i] == f(xs[i])
  {
    if xs == [] then [] else [f(xs[0])] + MapSeq(f, xs[1..])
  }
}
