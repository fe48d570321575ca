/** The read side of RecipeViewSet (api/views/recipes.py): the per-viewer
    flags get_queryset annotates and the serializer each request gets. */
module RecipeViews {
  import opened Common
  import opened Seqs
  import opened Models

  /** A listed recipe with its annotations; None where there is no
      annotation (an anonymous viewer), and the read serializer then leaves
      the field out. */
  datatype Listed = Listed(id: RecipeId, isFavorited: Option<bool>, isInShoppingCart: Option<bool>)

  /** `Exists(Model.objects.filter(user=viewer, recipe_id=OuterRef('pk')))`,
      present only for an authenticated viewer. */
  function Flag(viewer: Viewer, rows: seq<Pair>, id: RecipeId): Option<bool> {
    match viewer
    case Anonymous => None
    case Authenticated(u) => Some(Pair(u, id) in rows)
  }

  /** get_queryset over the listed recipes ids. */
  function Annotate(t: Tables, ids: seq<RecipeId>, viewer: Viewer): (r: seq<Listed>)
    ensures |r| == |ids|
    ensures forall i :: 0 <= i < |ids| ==> r[i].id == ids[i]
  {
    seq(|ids|, i requires 0 <= i < |ids| => Listed(ids[i], Flag(viewer, t.favorites, ids[i]), Flag(viewer, t.cart, ids[i])))
  }

  /** An anonymous viewer gets no flags; an authenticated viewer gets true
      exactly for the recipes it has favourited or put in its cart. */
  lemma AnnotationMeaning(t: Tables, ids: seq<RecipeId>, viewer: Viewer, i: int)
    requires 0 <= i < |ids|
    ensures viewer.Anonymous? ==> Annotate(t, ids, viewer)[i].isFavorited.None? && Annotate(t, ids, viewer)[i].isInShoppingCart.None?
    ensures viewer.Authenticated? ==>
      (Annotate(t, ids, viewer)[i].isFavorited == Some(true) <==> Pair(viewer.id, ids[i]) in t.favorites) &&
      (Annotate(t, ids, viewer)[i].isInShoppingCart == Some(true) <==> Pair(viewer.id, ids[i]) in t.cart) &&
      Annotate(t, ids, viewer)[i].isFavorited.Some? && Annotate(t, ids, viewer)[i].isInShoppingCart.Some?
  {
  }

  /** The flags are per viewer: two states in which viewer u has the same
      favourites and cart rows give u the same annotations. */
  lemma AnnotationPerViewer(t1: Tables, t2: Tables, ids: seq<RecipeId>, u: UserId)
    requires forall r :: Pair(u, r) in t1.favorites <==> Pair(u, r) in t2.favorites
    requires forall r :: Pair(u, r) in t1.cart <==> Pair(u, r) in t2.cart
    ensures Annotate(t1, ids, Authenticated(u)) == Annotate(t2, ids, Authenticated(u))
  {
  }

  /** After u adds recipe id to a relation, u's flag for id in that relation
      is true and every other flag is as before. */
  lemma AnnotationAfterAdd(t: Tables, rel: Relation, u: UserId, id: RecipeId, v: Viewer, r: RecipeId)
    ensures var rows := AddPair(t, rel, Pair(u, id)).Rows(rel);
      (v == Authenticated(u) && r == id ==> Flag(v, rows, r) == Some(true)) &&
      (v != Authenticated(u) || r != id ==> Flag(v, rows, r) == Flag(v, t.Rows(rel), r))
  {
    var rows := AddPair(t, rel, Pair(u, id)).Rows(rel);
    assert rows == t.Rows(rel) + [Pair(u, id)];
    assert rows[|t.Rows(rel)|] == Pair(u, id);
  }

  /** After u removes recipe id from a relation, u's flag for id in that
      relation is false and every other flag is as before. */
  lemma AnnotationAfterRemove(t: Tables, rel: Relation, u: UserId, id: RecipeId, v: Viewer, r: RecipeId)
    ensures var rows := RemovePair(t, rel, Pair(u, id)).Rows(rel);
      (v == Authenticated(u) && r == id ==> Flag(v, rows, r) == Some(false)) &&
      (v != Authenticated(u) || r != id ==> Flag(v, rows, r) == Flag(v, t.Rows(rel), r))
  {
  }

  // ----- Which serializer a request gets -----

  /** The viewset actions; the last three are the @action routes. */
  datatype Action = List | Create | Retrieve | Update | PartialUpdate | Destroy
                  | FavoriteAction | ShoppingCartAction | DownloadShoppingCart

  datatype SerializerClass = FullRecipeInfoSerializer | RecipeSerializer

  /** get_serializer_class. */
  function SerializerFor(a: Action): (r: SerializerClass)
    ensures r == FullRecipeInfoSerializer <==> exists route :: RouteAction("GET", route) == Some(a)
  {
    assert RouteAction("GET", Collection) == Some(List) && RouteAction("GET", Item) == Some(Retrieve);
    if a == List || a == Retrieve then FullRecipeInfoSerializer else RecipeSerializer
  }

  /** The two routes the router gives a ModelViewSet: the collection and
      one item. */
  datatype Route = Collection | Item

  /** The HTTP methods http_method_names lets through. */
  const AllowedMethods := {"GET", "POST", "PATCH", "DELETE"}

  /** The action the router maps a method on a route to, if any; a method
      outside http_method_names is refused before that (405). */
  function RouteAction(verb: string, route: Route): Option<Action> {
    if verb !in AllowedMethods then None
    else match route
      case Collection =>
        if verb == "GET" then Some(List) else if verb == "POST" then Some(Create) else None
      case Item =>
        if verb == "GET" then Some(Retrieve)
        else if verb == "PATCH" then Some(PartialUpdate)
        else if verb == "DELETE" then Some(Destroy)
        else None
  }

  /** On the viewset's own routes a request is read with the full
      serializer exactly when it is a GET, and a PUT reaches no action. */
  lemma ReadSerializerIffGet(verb: string, route: Route)
    ensures RouteAction(verb, route).Some? ==>
      (SerializerFor(RouteAction(verb, route).value) == FullRecipeInfoSerializer <==> verb == "GET")
    ensures RouteAction("PUT", route).None?
  {
  }
}
