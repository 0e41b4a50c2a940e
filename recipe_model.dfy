/** Recipes as stored in the document database (src/app/recipe/recipe.model.ts). */
module RecipeModel {
  import opened Ingredients

  /** A recipe with the document id it is stored under. */
  datatype RecipeId = RecipeId(
    id: string,
    recipeName: string,
    recipeDescription: string,
    recipeInstructions: string,
    recipeImagePath: string,
    ingredients: seq<Ingredient>)
}
